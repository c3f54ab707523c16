/** The pure part of the `/api/ip-info` handler of app.py: from the request's
    `ip` and `prefix` fields to either the error the client is told or the
    record of everything derived about the address and its subnet. */
module IpInfo {
  import opened Wrappers
  import opened Bits
  import opened Text
  import opened Address
  import opened Classify
  import Subnet

  /** The two request fields the handler reads; `None` is a field the JSON
      body does not carry. */
  datatype Request = Request(ip: Option<string>, prefix: Option<int>)

  /** The prefix the handler uses: the given one, 24 when there is none. */
  function PrefixOf(req: Request): int
  {
    match req.prefix
    case Some(p) => p
    case None => 24
  }

  /** The address text the handler uses: the given one with surrounding
      white space stripped, empty when there is none. */
  function AddressOf(req: Request): string
  {
    match req.ip
    case Some(s) => Strip(s)
    case None => Strip("")
  }

  /** Why a request is answered with status 400. */
  datatype RequestError =
    | IpRequired
    | PrefixOutOfRange
    | InvalidAddress(reason: ParseError)
  {
    /** The `error` text of the response. */
    function Message(): string
    {
      match this
      case IpRequired => "IP address is required."
      case PrefixOutOfRange => "Prefix must be between 0 and 32."
      case InvalidAddress(e) => e.Message()
    }
  }

  /** The fields of a successful response; `None` is JSON `null`. */
  datatype Info = Info(
    ip: string,
    prefix: nat,
    octets: seq<nat>,
    ipClass: string,
    networkType: string,
    subnetMask: string,
    wildcardMask: string,
    networkId: string,
    broadcast: string,
    hostMin: Option<string>,
    hostMax: Option<string>,
    totalHosts: nat,
    usableHosts: nat)

  /** The handler: an empty address is refused first, then a prefix outside
      0..32, then whatever `parse_ipv4` refuses; otherwise the response is
      built from the parsed octets. */
  function IpInfoOf(req: Request): (r: Result<Info, RequestError>)
    ensures r == Failure(IpRequired) <==> AddressOf(req) == []
    ensures r == Failure(PrefixOutOfRange) <==>
      AddressOf(req) != [] && !(0 <= PrefixOf(req) <= 32)
    ensures r.Failure? && r.error.InvalidAddress? <==>
      AddressOf(req) != [] && 0 <= PrefixOf(req) <= 32 && ParseIPv4(AddressOf(req)).Failure?
    ensures r.Failure? && r.error.InvalidAddress? ==>
      r.error.reason == ParseIPv4(AddressOf(req)).error
    ensures r.Success? ==>
      && 0 <= PrefixOf(req) <= 32
      && ParseIPv4(AddressOf(req)).Success?
      && r.value == Response(AddressOf(req), ParseIPv4(AddressOf(req)).value, PrefixOf(req))
  {
    var ipStr := AddressOf(req);
    var prefix := PrefixOf(req);
    if ipStr == [] then Failure(IpRequired)
    else if prefix < 0 || prefix > 32 then Failure(PrefixOutOfRange)
    else
      match ParseIPv4(ipStr)
      case Failure(e) => Failure(InvalidAddress(e))
      case Success(octets) => Success(Response(ipStr, octets, prefix))
  }

  /** The response for an accepted address: it is classified, its subnet is
      derived, and every address of the subnet is printed in dotted decimal. */
  function Response(ipStr: string, octets: seq<nat>, prefix: nat): Info
    requires ValidOctets(octets) && prefix <= 32
  {
    OctetsToIntFour(octets);
    var s := Subnet.Derive(OctetsToInt(octets), prefix);
    Info(
      ip := ipStr,
      prefix := prefix,
      octets := octets,
      ipClass := DetectClass(octets[0]).Label(),
      networkType := DetectNetworkType(octets).Label(),
      subnetMask := IntToIp(s.mask),
      wildcardMask := IntToIp(s.wildcard),
      networkId := IntToIp(s.network) + "/" + NatToString(prefix),
      broadcast := IntToIp(s.broadcast),
      hostMin := if s.hosts.Hosts? then Some(IntToIp(s.hosts.first)) else None,
      hostMax := if s.hosts.Hosts? then Some(IntToIp(s.hosts.last)) else None,
      totalHosts := s.totalHosts,
      usableHosts := s.usableHosts)
  }

  /** The response in terms of the arithmetic description of the subnet. */
  lemma ResponseFields(ipStr: string, octets: seq<nat>, prefix: nat)
    requires ValidOctets(octets) && prefix <= 32
    ensures var info := Response(ipStr, octets, prefix);
      var x := OctetsToInt(octets);
      && x < TwoTo32
      && var s := Subnet.SubnetSpec(x, prefix);
      && info.subnetMask == IntToIp(s.mask)
      && info.wildcardMask == IntToIp(s.wildcard)
      && info.networkId == IntToIp(s.network) + "/" + NatToString(prefix)
      && info.broadcast == IntToIp(s.broadcast)
      && info.hostMin == (if s.hosts.Hosts? then Some(IntToIp(s.hosts.first)) else None)
      && info.hostMax == (if s.hosts.Hosts? then Some(IntToIp(s.hosts.last)) else None)
      && info.totalHosts == s.totalHosts
      && info.usableHosts == s.usableHosts
  {
    OctetsToIntFour(octets);
  }

  /** The printed netmask reads back as 2^32 - 2^k and the printed wildcard as
      2^k - 1, where k = 32 - prefix is the number of host bits. */
  lemma ResponseMasks(ipStr: string, octets: seq<nat>, prefix: nat)
    requires ValidOctets(octets) && prefix <= 32
    ensures var info := Response(ipStr, octets, prefix);
      && Denotes(info.subnetMask, HighMask(32 - prefix))
      && Denotes(info.wildcardMask, Pow2(32 - prefix) - 1)
  {
    ResponseFields(ipStr, octets, prefix);
    var s := Subnet.SubnetSpec(OctetsToInt(octets), prefix);
    Pow2AtMost32(32 - prefix);
    IntToIpDenotes(s.mask);
    IntToIpDenotes(s.wildcard);
  }

  /** The network id is the printed network address, a '/', and the prefix;
      the printed broadcast address closes the block that holds the address,
      and the block has as many addresses as the reported total. */
  lemma ResponseRange(ipStr: string, octets: seq<nat>, prefix: nat)
    requires ValidOctets(octets) && prefix <= 32
    ensures var info := Response(ipStr, octets, prefix);
      var x := OctetsToInt(octets);
      && x < TwoTo32
      && var s := Subnet.SubnetSpec(x, prefix);
      && Split(info.networkId, '/') == [IntToIp(s.network), NatToString(prefix)]
      && Denotes(IntToIp(s.network), s.network)
      && Denotes(info.broadcast, s.broadcast)
      && s.network <= x <= s.broadcast
      && s.broadcast - s.network + 1 == info.totalHosts == Pow2(32 - prefix)
  {
    var x := OctetsToInt(octets);
    ResponseFields(ipStr, octets, prefix);
    var s := Subnet.SubnetSpec(x, prefix);
    Subnet.SubnetBounds(x, prefix);
    IntToIpDenotes(s.network);
    IntToIpDenotes(s.broadcast);
    NetworkIdSplits(s.network, prefix);
  }

  /** An address, a '/' and a number split at the '/' into the two again. */
  lemma NetworkIdSplits(v: nat, prefix: nat)
    ensures Split(IntToIp(v) + "/" + NatToString(prefix), '/') == [IntToIp(v), NatToString(prefix)]
  {
    IntToIpDigitsAndDots(v, '/');
    SplitAfterPiece(IntToIp(v), NatToString(prefix), '/');
    var digits := NatToString(prefix);
    assert '/' !in digits by {
      assert AllDigits(digits);
    }
    SplitNoSeparator(digits, '/');
  }

  /** Up to /30 the first and last usable hosts are printed, just inside the
      network and broadcast addresses, and all but two addresses are usable;
      for /31 and /32 both are `null` and no host is usable. */
  lemma ResponseHosts(ipStr: string, octets: seq<nat>, prefix: nat)
    requires ValidOctets(octets) && prefix <= 32
    ensures var info := Response(ipStr, octets, prefix);
      var x := OctetsToInt(octets);
      && x < TwoTo32
      && var s := Subnet.SubnetSpec(x, prefix);
      && (info.hostMin.Some? <==> prefix <= 30)
      && (info.hostMax.Some? <==> prefix <= 30)
      && (prefix <= 30 ==>
            && Denotes(info.hostMin.value, s.network + 1)
            && Denotes(info.hostMax.value, s.broadcast - 1)
            && s.network + 1 <= s.broadcast - 1
            && info.usableHosts == info.totalHosts - 2 >= 2)
      && (prefix > 30 ==> info.usableHosts == 0)
  {
    var x := OctetsToInt(octets);
    ResponseFields(ipStr, octets, prefix);
    var s := Subnet.SubnetSpec(x, prefix);
    Subnet.SubnetBounds(x, prefix);
    Subnet.SubnetHosts(x, prefix);
    if prefix <= 30 {
      IntToIpDenotes(s.network + 1);
      IntToIpDenotes(s.broadcast - 1);
    }
  }

  /** The two classifiers agree where their rule lists overlap: the class is
      "Loopback" exactly when the network type is, and class D exactly when
      the network type is multicast. */
  lemma ResponseClassesAgree(ipStr: string, octets: seq<nat>, prefix: nat)
    requires ValidOctets(octets) && prefix <= 32
    ensures var info := Response(ipStr, octets, prefix);
      && (info.ipClass == "Loopback" <==> info.networkType == "Loopback")
      && (info.ipClass == "Class D (Multicast)" <==> info.networkType == "Multicast")
  {
  }
}
