/** The platform-independent interface queries of netif.py: converting an
    address tuple to an `IPNet`, the per-interface address dictionary of
    `getifaddrs`, and the index lookups built on it.

    The platform listing is a parameter (a sequence of interface records,
    as the POSIX and Windows listings produce), and so are the platform's
    `if_indextoname` / `if_nametoindex` and `inet_pton`.  A Python dict's
    iteration order is not specified; iteration here follows the order of
    the listing. */
module Netif {
  import opened Base
  import Ip
  import opened IfRecords

  /** `_IPNetbyFamily[afamily]`: the address family registered for a tag.
      AF_INET6 is registered last, so it wins if the numbers coincide;
      any other tag is a `KeyError`. */
  function FamilyOf(tag: FamilyTag, fams: Families): (r: Option<Ip.Family>)
    ensures r == Some(Ip.IPv6) <==> tag == FamilyNumber(fams.inet6)
    ensures r == Some(Ip.IPv4) <==> tag == FamilyNumber(fams.inet) && fams.inet != fams.inet6
    ensures r.None? <==> tag != FamilyNumber(fams.inet) && tag != FamilyNumber(fams.inet6)
  {
    if tag == FamilyNumber(fams.inet6) then Some(Ip.IPv6)
    else if tag == FamilyNumber(fams.inet) then Some(Ip.IPv4)
    else None
  }

  /** An element of a `getifaddrs` list: an `IPNet`, or the address tuple
      itself when its family has no address class. */
  datatype IfAddr =
    | IfNet(net: Ip.IPNet)
    | Raw(family: FamilyTag, addr: string, netmask: Option<string>)

  function MaskOf(netmask: Option<string>): Option<Ip.MaskArg> {
    match netmask
    case None => None
    case Some(s) => Some(Ip.MaskText(s))
  }

  /** Building an `IPNet` never raises a `LookupError`: its failures are a
      clashing netmask or an address text `inet_pton` rejects. */
  lemma MakeNetErrors(f: Ip.Family, ip: Ip.Address, netmask: Option<Ip.MaskArg>, pton: Ip.Pton)
    ensures Ip.MakeNet(f, ip, netmask, pton).Err? ==>
              Ip.MakeNet(f, ip, netmask, pton).error in {ValueError, IllegalAddress}
  {
    var split := Ip.SplitIPandNetmask(ip, netmask);
    if split.Ok? {
      var (ipPart, maskPart) := split.value;
      FromTextErrors(f, ipPart, false, pton);
      if Ip.MaskTruthy(maskPart) {
        FromTextErrors(f, Ip.MaskAddress(maskPart.value), true, pton);
      }
    }
  }

  lemma FromTextErrors(f: Ip.Family, a: Ip.Address, isNetmask: bool, pton: Ip.Pton)
    ensures Ip.AsIP(f, a, isNetmask, pton).Err? ==> Ip.AsIP(f, a, isNetmask, pton).error == IllegalAddress
  {
  }

  /** `ifaddrAsIP(afamily, addr, netmask)`: an `IPNet` of the registered
      family, or the tuple unchanged when the family is not registered (the
      `KeyError` the lookup raises is caught as a `LookupError`).  Nothing
      else is caught, so a malformed address still raises. */
  function IfaddrAsIP(family: FamilyTag, addr: string, netmask: Option<string>, fams: Families, pton: Ip.Pton)
    : (r: Result<IfAddr>)
    ensures FamilyOf(family, fams).None? ==> r == Ok(Raw(family, addr, netmask))
    ensures r.Err? ==> FamilyOf(family, fams).Some? && r.error != LookupError
    ensures r.Ok? ==> (r.value.IfNet? <==> FamilyOf(family, fams).Some?)
    ensures r.Ok? && r.value.IfNet? ==>
              var f := FamilyOf(family, fams).value;
              && r.value.net.ip.family == f && Ip.Valid(r.value.net.ip) && !r.value.net.ip.isNetmask
              && (r.value.net.netmask.Some? ==> r.value.net.netmask.value.family == f)
    ensures r.Ok? && r.value.IfNet? && '/' !in addr ==>
              var f := FamilyOf(family, fams).value;
              && pton(f, addr).Some?
              && Bytes.ToBytes(r.value.net.ip.number, Ip.ByteCount(f)) == pton(f, addr).value
              && (r.value.net.netmask.Some? <==> Truthy(netmask))
    ensures FamilyOf(family, fams).Some? ==> (r.Ok? <==> Ip.MakeNet(FamilyOf(family, fams).value, Ip.AddrText(addr), MaskOf(netmask), pton).Ok?)
  {
    match FamilyOf(family, fams)
    case None => Ok(Raw(family, addr, netmask))
    case Some(f) =>
      MakeNetErrors(f, Ip.AddrText(addr), MaskOf(netmask), pton);
      match Ip.MakeNet(f, Ip.AddrText(addr), MaskOf(netmask), pton)
      case Ok(n) => Ok(IfNet(n))
      case Err(e) => Err(e)
  }

  /** The entry-filter of `getifaddrs`: the address must be truthy, and
      when families are given the entry's family must be one of them. */
  predicate Selected(e: AddrEntry, afams: seq<FamilyTag>) {
    Truthy(e.addr) && (|afams| == 0 || e.family in afams)
  }

  /** The two list comprehensions of `getifaddrs`, keeping order. */
  function Kept(addrs: seq<AddrEntry>, afams: seq<FamilyTag>): (r: seq<AddrEntry>)
    ensures |r| <= |addrs|
    ensures forall e :: e in r <==> e in addrs && Selected(e, afams)
    ensures forall i | 0 <= i < |r| :: Selected(r[i], afams)
    decreases |addrs|
  {
    if |addrs| == 0 then []
    else
      var rest := Kept(addrs[1..], afams);
      assert forall e :: e in addrs <==> e == addrs[0] || e in addrs[1..];
      if Selected(addrs[0], afams) then [addrs[0]] + rest else rest
  }

  /** Filtering twice with the same families keeps the same entries. */
  lemma {:induction false} KeptIdempotent(addrs: seq<AddrEntry>, afams: seq<FamilyTag>)
    ensures Kept(Kept(addrs, afams), afams) == Kept(addrs, afams)
    decreases |addrs|
  {
    if |addrs| > 0 {
      KeptIdempotent(addrs[1..], afams);
      var rest := Kept(addrs[1..], afams);
      if Selected(addrs[0], afams) {
        assert ([addrs[0]] + rest)[1..] == rest;
      }
    }
  }

  /** `[ifaddrAsIP(*a) for a in addrs]`: the first failure escapes. */
  function ConvertAll(entries: seq<AddrEntry>, fams: Families, pton: Ip.Pton): (r: Result<seq<IfAddr>>)
    requires forall i | 0 <= i < |entries| :: entries[i].addr.Some?
    ensures r.Ok? <==> forall i | 0 <= i < |entries| ::
              IfaddrAsIP(entries[i].family, entries[i].addr.value, NetmaskOf(entries[i]), fams, pton).Ok?
    ensures r.Ok? ==> |r.value| == |entries|
    ensures r.Ok? ==> forall i | 0 <= i < |entries| ::
              r.value[i] == IfaddrAsIP(entries[i].family, entries[i].addr.value, NetmaskOf(entries[i]), fams, pton).value
    decreases |entries|
  {
    if |entries| == 0 then Ok([])
    else
      var e := entries[0];
      match IfaddrAsIP(e.family, e.addr.value, NetmaskOf(e), fams, pton)
      case Err(err) => Err(err)
      case Ok(a) =>
        match ConvertAll(entries[1..], fams, pton)
        case Err(err) => Err(err)
        case Ok(rest) =>
          assert forall i | 1 <= i < |entries| :: entries[i] == entries[1..][i - 1];
          Ok([a] + rest)
  }

  /** An interface takes part in the result when some address survives
      the filter. */
  predicate Contributes(rec: IfRecord, afams: seq<FamilyTag>) {
    Kept(rec.addrs, afams) != []
  }

  function Converted(rec: IfRecord, afams: seq<FamilyTag>, fams: Families, pton: Ip.Pton): Result<seq<IfAddr>> {
    ConvertAll(Kept(rec.addrs, afams), fams, pton)
  }

  /** A dictionary filled in order from `(key, contribution)` pairs: `None`
      leaves the dictionary alone, a value is stored under its key, and the
      first failure ends the loop. */
  function Fill<V>(pairs: seq<(string, Option<Result<V>>)>): (r: Result<map<string, V>>)
    decreases |pairs|
  {
    if |pairs| == 0 then Ok(map[])
    else
      var (k, c) := pairs[|pairs| - 1];
      match Fill(pairs[..|pairs| - 1])
      case Err(e) => Err(e)
      case Ok(m) =>
        match c
        case None => Ok(m)
        case Some(Err(e)) => Err(e)
        case Some(Ok(v)) => Ok(m[k := v])
  }

  predicate Fails<V>(c: Option<Result<V>>) {
    c.Some? && c.value.Err?
  }

  /** Filling fails exactly when some contribution is a failure. */
  lemma {:induction false} FillFails<V>(pairs: seq<(string, Option<Result<V>>)>)
    ensures Fill(pairs).Err? <==> exists i | 0 <= i < |pairs| :: Fails(pairs[i].1)
    decreases |pairs|
  {
    if |pairs| > 0 {
      var n := |pairs| - 1;
      var init := pairs[..n];
      assert forall i | 0 <= i < n :: init[i] == pairs[i];
      FillFails(init);
    }
  }

  /** Without a failure, the keys are those with a contribution. */
  lemma {:induction false} FillKeys<V>(pairs: seq<(string, Option<Result<V>>)>, k: string)
    requires Fill(pairs).Ok?
    ensures k in Fill(pairs).value <==> exists i | 0 <= i < |pairs| :: pairs[i].0 == k && pairs[i].1.Some?
    decreases |pairs|
  {
    if |pairs| > 0 {
      var n := |pairs| - 1;
      var init := pairs[..n];
      assert forall i | 0 <= i < n :: init[i] == pairs[i];
      FillKeys(init, k);
    }
  }

  /** Without a failure, a key holds its last contribution. */
  lemma {:induction false} FillValues<V>(pairs: seq<(string, Option<Result<V>>)>, i: nat)
    requires Fill(pairs).Ok?
    requires i < |pairs| && pairs[i].1.Some?
    requires forall j | i < j < |pairs| :: pairs[j].0 == pairs[i].0 ==> pairs[j].1.None?
    ensures pairs[i].1.value.Ok?
    ensures pairs[i].0 in Fill(pairs).value && Fill(pairs).value[pairs[i].0] == pairs[i].1.value.value
    decreases |pairs|
  {
    var n := |pairs| - 1;
    if i < n {
      var init := pairs[..n];
      assert forall j | 0 <= j < n :: init[j] == pairs[j];
      FillValues(init, i);
    }
  }

  /** Without a failure, every stored value is some key's contribution. */
  lemma {:induction false} FillSource<V>(pairs: seq<(string, Option<Result<V>>)>, k: string)
    requires Fill(pairs).Ok? && k in Fill(pairs).value
    ensures exists i | 0 <= i < |pairs| :: pairs[i].0 == k && pairs[i].1 == Some(Ok(Fill(pairs).value[k]))
    decreases |pairs|
  {
    var n := |pairs| - 1;
    var init := pairs[..n];
    assert forall i | 0 <= i < n :: init[i] == pairs[i];
    if pairs[n].0 != k || pairs[n].1.None? {
      FillSource(init, k);
    }
  }

  /** What one interface record adds to the `getifaddrs` dictionary. */
  function Contribution(rec: IfRecord, afams: seq<FamilyTag>, fams: Families, pton: Ip.Pton)
    : Option<Result<seq<IfAddr>>>
  {
    if Contributes(rec, afams) then Some(Converted(rec, afams, fams, pton)) else None
  }

  function Contributions(records: seq<IfRecord>, afams: seq<FamilyTag>, fams: Families, pton: Ip.Pton)
    : (r: seq<(string, Option<Result<seq<IfAddr>>>)>)
    ensures |r| == |records|
    ensures forall i | 0 <= i < |records| :: r[i] == (records[i].name, Contribution(records[i], afams, fams, pton))
  {
    seq(|records|, i requires 0 <= i < |records| => (records[i].name, Contribution(records[i], afams, fams, pton)))
  }

  /** The source iterates `platform_getifaddrs().items()`, but every
      platform listing returns a list of `(name, record)` pairs, and a list
      has no `items`: every call raises `AttributeError`. */
  function GetifaddrsAsWritten(records: seq<IfRecord>, afams: seq<FamilyTag>, fams: Families, pton: Ip.Pton)
    : (r: Result<map<string, seq<IfAddr>>>)
    ensures r.Err? && r.error == AttributeError
  {
    Err(AttributeError)
  }

  /** `getifaddrs(*afamilies)` iterating the `(name, record)` pairs: each
      interface with a surviving address maps its name to the converted
      list; a later record of the same name replaces an earlier one. */
  function Getifaddrs(records: seq<IfRecord>, afams: seq<FamilyTag>, fams: Families, pton: Ip.Pton)
    : (r: Result<map<string, seq<IfAddr>>>)
  {
    Fill(Contributions(records, afams, fams, pton))
  }

  /** No later record of the same name contributes. */
  predicate LastContributor(records: seq<IfRecord>, i: nat, afams: seq<FamilyTag>)
    requires i < |records|
  {
    Contributes(records[i], afams) &&
    forall j | i < j < |records| :: records[j].name == records[i].name ==> !Contributes(records[j], afams)
  }

  /** `getifaddrs` fails exactly when some contributing interface has an
      address that does not convert. */
  lemma GetifaddrsFails(records: seq<IfRecord>, afams: seq<FamilyTag>, fams: Families, pton: Ip.Pton)
    ensures Getifaddrs(records, afams, fams, pton).Err? <==>
              exists i | 0 <= i < |records| ::
                Contributes(records[i], afams) && Converted(records[i], afams, fams, pton).Err?
  {
    var pairs := Contributions(records, afams, fams, pton);
    FillFails(pairs);
    assert forall i | 0 <= i < |records| ::
      Fails(pairs[i].1) == (Contributes(records[i], afams) && Converted(records[i], afams, fams, pton).Err?);
  }

  /** Without a failure, the keys are the names of the contributing
      interfaces. */
  lemma GetifaddrsKeys(records: seq<IfRecord>, afams: seq<FamilyTag>, fams: Families, pton: Ip.Pton, k: string)
    requires Getifaddrs(records, afams, fams, pton).Ok?
    ensures k in Getifaddrs(records, afams, fams, pton).value <==>
              exists i | 0 <= i < |records| :: records[i].name == k && Contributes(records[i], afams)
  {
    var pairs := Contributions(records, afams, fams, pton);
    FillKeys(pairs, k);
    assert forall i | 0 <= i < |records| ::
      (pairs[i].0 == k && pairs[i].1.Some?) == (records[i].name == k && Contributes(records[i], afams));
  }

  /** Without a failure, each name holds the converted addresses of the
      last contributing interface of that name. */
  lemma GetifaddrsValues(records: seq<IfRecord>, afams: seq<FamilyTag>, fams: Families, pton: Ip.Pton, i: nat)
    requires Getifaddrs(records, afams, fams, pton).Ok?
    requires i < |records| && LastContributor(records, i, afams)
    ensures Converted(records[i], afams, fams, pton).Ok?
    ensures records[i].name in Getifaddrs(records, afams, fams, pton).value
    ensures Getifaddrs(records, afams, fams, pton).value[records[i].name]
              == Converted(records[i], afams, fams, pton).value
  {
    var pairs := Contributions(records, afams, fams, pton);
    assert forall j | i < j < |pairs| :: pairs[j].0 == pairs[i].0 ==> pairs[j].1.None?;
    FillValues(pairs, i);
  }

  /** With the families given as one tag (`getifaddrs_v4`, `_v6`, `_mac`),
      every listed element is an `IPNet` of that family, or, for a tag with
      no address class, the raw tuple of that tag. */
  lemma GetifaddrsByFamily(records: seq<IfRecord>, tag: FamilyTag, fams: Families, pton: Ip.Pton, k: string, j: nat)
    requires Getifaddrs(records, [tag], fams, pton).Ok?
    requires k in Getifaddrs(records, [tag], fams, pton).value
    requires j < |Getifaddrs(records, [tag], fams, pton).value[k]|
    ensures var a := Getifaddrs(records, [tag], fams, pton).value[k][j];
            && (FamilyOf(tag, fams).Some? ==> a.IfNet? && a.net.ip.family == FamilyOf(tag, fams).value)
            && (FamilyOf(tag, fams).None? ==> a.Raw? && a.family == tag)
  {
    var pairs := Contributions(records, [tag], fams, pton);
    var list := Getifaddrs(records, [tag], fams, pton).value[k];
    FillSource(pairs, k);
    var i :| 0 <= i < |pairs| && pairs[i].0 == k && pairs[i].1 == Some(Ok(list));
    var kept := Kept(records[i].addrs, [tag]);
    assert Converted(records[i], [tag], fams, pton) == Ok(list);
    assert Selected(kept[j], [tag]);
  }

  /** The source's `getifaddrs` never returns a listing, where reading the
      pairs gives each contributing interface its entry. */
  lemma GetifaddrsAsWrittenLosesListing(records: seq<IfRecord>, afams: seq<FamilyTag>, fams: Families, pton: Ip.Pton, i: nat)
    requires i < |records| && Contributes(records[i], afams)
    requires forall j | 0 <= j < |records| :: Converted(records[j], afams, fams, pton).Ok?
    ensures GetifaddrsAsWritten(records, afams, fams, pton) == Err(AttributeError)
    ensures Getifaddrs(records, afams, fams, pton).Ok?
    ensures records[i].name in Getifaddrs(records, afams, fams, pton).value
  {
    GetifaddrsFails(records, afams, fams, pton);
    GetifaddrsKeys(records, afams, fams, pton, records[i].name);
  }

  /** `getIFAddressList(ifname, *afamilies)`: the converted list of the
      named interface; an interface without surviving addresses is a
      `KeyError`. */
  function GetIFAddressList(ifname: string, records: seq<IfRecord>, afams: seq<FamilyTag>, fams: Families, pton: Ip.Pton)
    : (r: Result<seq<IfAddr>>)
    ensures Getifaddrs(records, afams, fams, pton).Err? ==> r == Err(Getifaddrs(records, afams, fams, pton).error)
    ensures r.Ok? ==> exists i | 0 <= i < |records| :: records[i].name == ifname && Contributes(records[i], afams)
    ensures r.Ok? ==> forall i | 0 <= i < |records| && records[i].name == ifname && LastContributor(records, i, afams) ::
              Converted(records[i], afams, fams, pton) == Ok(r.value)
    ensures Getifaddrs(records, afams, fams, pton).Ok? && r.Err? ==>
              r.error == LookupError &&
              forall i | 0 <= i < |records| :: records[i].name == ifname ==> !Contributes(records[i], afams)
  {
    match Getifaddrs(records, afams, fams, pton)
    case Err(e) => Err(e)
    case Ok(m) =>
      GetifaddrsKeys(records, afams, fams, pton, ifname);
      forall i | 0 <= i < |records| && records[i].name == ifname && LastContributor(records, i, afams)
        ensures Converted(records[i], afams, fams, pton) == Ok(m[ifname])
      {
        GetifaddrsValues(records, afams, fams, pton, i);
      }
      if ifname in m then Ok(m[ifname]) else Err(LookupError)
  }

  /** `getIFIndex(ifname)`: an index is returned when the platform names
      it, a name is looked up.  The Windows listings' lookups raise
      `NotImplementedError`, which escapes. */
  function GetIFIndex(arg: IfArg, indexToName: int -> Result<string>, nameToIndex: string -> Result<int>)
    : (r: Result<Option<int>>)
    ensures arg.IfNumber? ==>
              (r == Ok(Some(arg.n)) <==> indexToName(arg.n).Ok? && indexToName(arg.n).value != "")
    ensures arg.IfNumber? && r.Ok? && r.value.Some? ==> r.value.value == arg.n
    ensures arg.IfNumber? ==> (r.Err? <==> indexToName(arg.n).Err?)
    ensures arg.IfText? ==> (r.Ok? <==> nameToIndex(arg.s).Ok?)
    ensures arg.IfText? && r.Ok? ==> r.value == Some(nameToIndex(arg.s).value)
  {
    match arg
    case IfNumber(n) =>
      (match indexToName(n)
       case Err(e) => Err(e)
       case Ok(name) => if name != "" then Ok(Some(n)) else Ok(None))
    case IfText(s) =>
      (match nameToIndex(s)
       case Err(e) => Err(e)
       case Ok(i) => Ok(Some(i)))
  }

  /** Where the platform's two lookups are inverse on an interface, asking
      by index and by name give the same answer. */
  lemma GetIFIndexByNameOrNumber(i: int, indexToName: int -> Result<string>, nameToIndex: string -> Result<int>)
    requires indexToName(i).Ok? && indexToName(i).value != ""
    requires nameToIndex(indexToName(i).value) == Ok(i)
    ensures GetIFIndex(IfText(indexToName(i).value), indexToName, nameToIndex)
         == GetIFIndex(IfNumber(i), indexToName, nameToIndex)
         == Ok(Some(i))
  {
  }

  /** `ip in iplist`: `IPBase.__eq__` against each element in turn.  An
      `IPNet` compares by its address; a raw tuple is handed to `inet_pton`,
      which raises `TypeError`. */
  function Member(ip: Ip.IP, list: seq<IfAddr>): (r: Result<bool>)
    ensures r == Ok(false) <==> forall i | 0 <= i < |list| :: list[i].IfNet? && !Ip.Eq(ip, list[i].net.ip)
    ensures r == Ok(true) ==> exists i | 0 <= i < |list| :: list[i].IfNet? && Ip.Eq(ip, list[i].net.ip)
    ensures r.Err? ==> r.error == TypeError && exists i | 0 <= i < |list| :: list[i].Raw?
    ensures (forall i | 0 <= i < |list| :: list[i].IfNet?) ==>
              r == Ok(exists i | 0 <= i < |list| :: Ip.Eq(ip, list[i].net.ip))
    decreases |list|
  {
    if |list| == 0 then Ok(false)
    else
      assert forall i | 1 <= i < |list| :: list[i] == list[1..][i - 1];
      match list[0]
      case Raw(_, _, _) => Err(TypeError)
      case IfNet(n) =>
        if Ip.Eq(ip, n.ip) then Ok(true)
        else
          Member(ip, list[1..])
  }

  /** The loop of `getIFIndexForIP` over the interfaces: the first name
      whose list contains the address. */
  function Search(ip: Ip.IP, names: seq<string>, m: map<string, seq<IfAddr>>): (r: Result<Option<string>>)
    requires forall k | k in names :: k in m
    ensures r.Ok? && r.value.Some? ==> r.value.value in names && Member(ip, m[r.value.value]) == Ok(true)
    ensures r == Ok(None) <==> forall k | k in names :: Member(ip, m[k]) == Ok(false)
    ensures r.Err? ==> r.error == TypeError && exists k | k in names :: Member(ip, m[k]).Err?
    decreases |names|
  {
    if |names| == 0 then Ok(None)
    else
      match Member(ip, m[names[0]])
      case Err(e) => Err(e)
      case Ok(found) =>
        if found then Ok(Some(names[0]))
        else
          assert forall k :: k in names <==> k == names[0] || k in names[1..];
          Search(ip, names[1..], m)
  }

  /** The interface names in listing order, those in `m` only. */
  function NamesIn(records: seq<IfRecord>, m: map<string, seq<IfAddr>>): (r: seq<string>)
    ensures forall k | k in r :: k in m
    ensures forall i | 0 <= i < |records| :: records[i].name in m ==> records[i].name in r
    decreases |records|
  {
    if |records| == 0 then []
    else
      var rest := NamesIn(records[1..], m);
      assert forall i | 1 <= i < |records| :: records[i] == records[1..][i - 1];
      if records[0].name in m then [records[0].name] + rest else rest
  }

  /** Every interface of a listing appears among its names in listing
      order. */
  lemma NamesCoverListing(records: seq<IfRecord>, afams: seq<FamilyTag>, fams: Families, pton: Ip.Pton)
    requires Getifaddrs(records, afams, fams, pton).Ok?
    ensures var m := Getifaddrs(records, afams, fams, pton).value;
            forall k | k in m :: k in NamesIn(records, m)
  {
    var m := Getifaddrs(records, afams, fams, pton).value;
    forall k | k in m ensures k in NamesIn(records, m) {
      GetifaddrsKeys(records, afams, fams, pton, k);
      var i :| 0 <= i < |records| && records[i].name == k && Contributes(records[i], afams);
    }
  }

  /** `getIFIndexForIP(ip, *afamilies)`: the index of the first interface
      whose converted addresses include `ip`, or `None`. */
  function GetIFIndexForIP(s: string, afams: seq<FamilyTag>, records: seq<IfRecord>, fams: Families, pton: Ip.Pton,
                           indexToName: int -> Result<string>, nameToIndex: string -> Result<int>)
    : (r: Result<Option<int>>)
    ensures Ip.IpOf(s, false, None, pton).Err? ==> r == Err(Ip.IpOf(s, false, None, pton).error)
    ensures Ip.IpOf(s, false, None, pton).Ok? && Getifaddrs(records, afams, fams, pton).Err? ==>
              r == Err(Getifaddrs(records, afams, fams, pton).error)
    ensures Ip.IpOf(s, false, None, pton).Ok? && Getifaddrs(records, afams, fams, pton).Ok? ==>
              var m := Getifaddrs(records, afams, fams, pton).value;
              (r == Ok(None) <==> forall k | k in m :: Member(Ip.IpOf(s, false, None, pton).value, m[k]) == Ok(false))
    ensures r.Err? && Ip.IpOf(s, false, None, pton).Ok? && Getifaddrs(records, afams, fams, pton).Ok? ==>
              var ip, m := Ip.IpOf(s, false, None, pton).value, Getifaddrs(records, afams, fams, pton).value;
              || (r.error == TypeError && exists k | k in m :: Member(ip, m[k]).Err?)
              || (exists k | k in m :: Member(ip, m[k]) == Ok(true) && r == GetIFIndex(IfText(k), indexToName, nameToIndex))
    ensures r.Ok? && r.value.Some? ==>
              var m := Getifaddrs(records, afams, fams, pton).value;
              exists k | k in m ::
                && Member(Ip.IpOf(s, false, None, pton).value, m[k]) == Ok(true)
                && r == GetIFIndex(IfText(k), indexToName, nameToIndex)
  {
    match Ip.IpOf(s, false, None, pton)
    case Err(e) => Err(e)
    case Ok(ip) =>
      match Getifaddrs(records, afams, fams, pton)
      case Err(e) => Err(e)
      case Ok(m) =>
        var names := NamesIn(records, m);
        NamesCoverListing(records, afams, fams, pton);
        var found := Search(ip, names, m);
        assert found == Ok(None) <==> forall k | k in m :: Member(ip, m[k]) == Ok(false);
        match found
        case Err(e) => Err(e)
        case Ok(None) => Ok(None)
        case Ok(Some(k)) =>
          match GetIFIndex(IfText(k), indexToName, nameToIndex)
          case Err(e) => Err(e)
          case Ok(idx) => Ok(idx)
  }
}
