/**
 * The DHCP and DNS-forwarding paths the interface editor seeds for a static
 * IPv4 address (interfaces/dhcp.py), with the 32-bit address arithmetic of
 * Python's ipaddress.ip_interface written out, and the two readers of the
 * DHCP server configuration: the lowest free subnet-id and whether any scope
 * is enabled.
 */
module DhcpPaths {
  import opened Wrappers
  import opened Text
  import opened ConfigTree
  import opened Paths
  import opened Ipv4
  import IfaceUtils
  import DhcpUtils

  // ---------------------------------------------------------------------------
  // IPv4 interfaces as 32-bit values

  const AddressSpace: nat := 0x1_0000_0000

  /** An IPv4 interface: the host address as a 32-bit value and the prefix length. */
  datatype Iface = Iface(ip: nat, prefix: nat)

  predicate ValidIface(x: Iface)
  {
    x.ip < AddressSpace && x.prefix <= 32
  }

  /** The 32-bit value of four octets, most significant first. */
  function AddressValue(o: seq<nat>): (v: nat)
    requires |o| == 4 && forall i :: 0 <= i < 4 ==> o[i] <= 255
    ensures v < AddressSpace
  {
    var hi := o[0] * 256 + o[1];
    assert hi <= 65535;
    var mid := hi * 256 + o[2];
    assert mid <= 16777215;
    mid * 256 + o[3]
  }

  /** The dotted-quad text IPv4Address accepts: four strict octets. */
  function ParseAddress(s: string): (r: Option<nat>)
    ensures r.Some? ==> r.value < AddressSpace
  {
    var octs := Split(s, '.');
    if |octs| == 4 && forall i :: 0 <= i < 4 ==> StrictOctet(octs[i]) then
      Some(AddressValue(OctetValues(octs)))
    else Option.None
  }

  /** A prefix length in decimal: ASCII digits only (leading zeros allowed), at most 32. */
  function ParsePrefix(s: string): (r: Option<nat>)
    ensures r.Some? ==> r.value <= 32
  {
    if IsDigitString(s) && DigitsValue(s) <= 32 then Some(DigitsValue(s)) else Option.None
  }

  /**
   * ipaddress.ip_interface for IPv4 text: an address, optionally followed by
   * "/" and a decimal prefix length; without one the prefix is 32. More than
   * one "/" is refused.
   */
  function ParseInterface(s: string): (r: Option<Iface>)
    ensures r.Some? ==> ValidIface(r.value)
  {
    var parts := Split(s, '/');
    if |parts| > 2 then Option.None
    else
      var ip := ParseAddress(parts[0]);
      var prefix := if |parts| == 1 then Some(32) else ParsePrefix(parts[1]);
      if ip.Some? && prefix.Some? then Some(Iface(ip.value, prefix.value)) else Option.None
  }

  /** The number of addresses of the network: 2 to the number of host bits. */
  function Size(x: Iface): (n: nat)
    requires x.prefix <= 32
    ensures n >= 1
  {
    Pow2(32 - x.prefix)
  }

  /** The network address: the host bits cleared. */
  function Network(x: Iface): nat
    requires x.prefix <= 32
  {
    AlignDown(x.ip, Size(x))
  }

  function Broadcast(x: Iface): nat
    requires x.prefix <= 32
  {
    Network(x) + Size(x) - 1
  }

  /** IPv4Address.exploded: the four octets in decimal, dot-separated. */
  function FormatIp(v: nat): string
  {
    Join(OctetTexts(v), ".")
  }

  function Octets(v: nat): (o: seq<nat>)
    ensures |o| == 4
  {
    var v1 := v / 256;
    var v2 := v1 / 256;
    [v2 / 256, v2 % 256, v1 % 256, v % 256]
  }

  function OctetTexts(v: nat): (t: seq<string>)
    ensures |t| == 4 && forall i :: 0 <= i < 4 ==> t[i] == NatStr(Octets(v)[i])
  {
    var o := Octets(v);
    [NatStr(o[0]), NatStr(o[1]), NatStr(o[2]), NatStr(o[3])]
  }

  /** str(network): the network address and the prefix length. */
  function NetworkText(x: Iface): string
    requires x.prefix <= 32
  {
    FormatIp(Network(x)) + "/" + NatStr(x.prefix)
  }

  // ---------------------------------------------------------------------------
  // Arithmetic facts

  lemma OctetsInRange(v: nat)
    requires v < AddressSpace
    ensures forall i :: 0 <= i < 4 ==> Octets(v)[i] <= 255
    ensures AddressValue(Octets(v)) == v
  {
    var v1 := v / 256;
    var v2 := v1 / 256;
    assert v1 < 16777216;
    assert v2 < 65536;
    assert v2 / 256 < 256;
    assert v == v1 * 256 + v % 256;
    assert v1 == v2 * 256 + v1 % 256;
    assert v2 == (v2 / 256) * 256 + v2 % 256;
  }

  lemma FormatIpShape(v: nat)
    requires v < AddressSpace
    ensures '/' !in FormatIp(v)
    ensures Split(FormatIp(v), '.') == OctetTexts(v)
  {
    var t := OctetTexts(v);
    assert Octets(v) == Octets(v);
    forall p | p in t
      ensures '.' !in p && '/' !in p
    {
      AllDigitsAvoid(p, '.');
      AllDigitsAvoid(p, '/');
    }
    JoinAvoids(t, ".", '/');
    SplitJoin(t, '.');
  }

  /** Printing an address and reading it back gives the same 32-bit value. */
  lemma ParseFormatIp(v: nat)
    requires v < AddressSpace
    ensures ParseAddress(FormatIp(v)) == Some(v)
  {
    FormatIpShape(v);
    OctetsInRange(v);
    var t := OctetTexts(v);
    var o := Octets(v);
    forall i | 0 <= i < 4
      ensures StrictOctet(t[i]) && DigitsValue(t[i]) == o[i]
    {
      NatStrOctet(o[i]);
    }
    assert OctetValues(t) == o;
  }

  lemma ParsePrefixText(p: nat)
    requires p <= 32
    ensures ParsePrefix(NatStr(p)) == Some(p)
  {
    DigitsValueNatStr(p);
  }

  /** An interface written as address/prefix parses back to itself. */
  lemma ParseInterfaceText(x: Iface)
    requires ValidIface(x)
    ensures ParseInterface(FormatIp(x.ip) + "/" + NatStr(x.prefix)) == Some(x)
  {
    var a := FormatIp(x.ip);
    FormatIpShape(x.ip);
    ParseFormatIp(x.ip);
    ParsePrefixText(x.prefix);
    AllDigitsAvoid(NatStr(x.prefix), '/');
    IndexOfAfter(a, '/', NatStr(x.prefix));
    assert a + "/" + NatStr(x.prefix) == a + ['/'] + NatStr(x.prefix);
    assert Split(a + "/" + NatStr(x.prefix), '/') == [a, NatStr(x.prefix)];
  }

  lemma Pow2Add(a: nat, b: nat)
    ensures Pow2(a + b) == Pow2(a) * Pow2(b)
  {
    if a > 0 {
      Pow2Add(a - 1, b);
    }
  }

  lemma Pow2AtLeastFour(k: nat)
    requires k >= 2
    ensures Pow2(k) >= 4
  {
    if k > 2 {
      Pow2AtLeastFour(k - 1);
    }
  }

  lemma Pow2ThirtyTwo()
    ensures Pow2(32) == AddressSpace
  {
    Pow2Add(16, 16);
    Pow2Add(8, 8);
    Pow2Add(4, 4);
    Pow2Add(2, 2);
    Pow2Add(1, 1);
  }

  /** A multiple of m below n * m leaves room for m more. */
  lemma MultipleRoom(q: nat, m: nat, n: nat, v: nat)
    requires m >= 1 && q * m <= v < n * m
    ensures q * m + m <= n * m
  {
    assert q >= n ==> q * m >= n * m;
    assert (q + 1) * m == q * m + m;
    assert q + 1 <= n ==> (q + 1) * m <= n * m;
  }

  /** The network starts on a multiple of its size, holds the address, and fits below 2^32. */
  lemma NetworkBounds(x: Iface)
    requires ValidIface(x)
    ensures Network(x) <= x.ip <= Broadcast(x)
    ensures Network(x) % Size(x) == 0
    ensures Broadcast(x) < AddressSpace
  {
    var m := Size(x);
    var n := Pow2(x.prefix);
    AlignDownBounds(x.ip, m);
    var q := x.ip / m;
    assert Network(x) == q * m;
    Pow2Add(32 - x.prefix, x.prefix);
    Pow2ThirtyTwo();
    assert m * n == AddressSpace;
    MultipleRoom(q, m, n, x.ip);
  }

  // ---------------------------------------------------------------------------
  // build_dhcp_paths

  const DhcpBase: Path := ["service", "dhcp-server", "shared-network-name"]

  /** The first offered address: the network plus min(20, max(1, size - 2)). */
  function RangeStart(x: Iface): nat
    requires x.prefix <= 32
  {
    var maxOffset := if Size(x) - 2 > 1 then Size(x) - 2 else 1;
    Network(x) + (if 20 < maxOffset then 20 else maxOffset)
  }

  /** The last offered address: the one below the broadcast, or the network itself for /31 and /32. */
  function RangeStop(x: Iface): nat
    requires x.prefix <= 32
  {
    if Size(x) > 2 then Broadcast(x) - 1 else Network(x)
  }

  /**
   * build_dhcp_paths: nothing for a missing, empty or unparsable address;
   * otherwise the nine paths of one scope under the normalised shared name.
   * None where the source raises: the range start of 255.255.255.255/32 is
   * beyond the last IPv4 address.
   */
  function BuildDhcpPaths(sharedName: Option<string>, cidr: Option<string>, subnetId: Option<int>, lease: string): (r: Option<seq<Path>>)
    ensures r.None? ==> cidr.Some? && ParseInterface(cidr.value).Some?
  {
    if cidr.None? || cidr.value == [] then Some([])
    else
      var parsed := ParseInterface(cidr.value);
      if parsed.None? then Some([])
      else
        var x := parsed.value;
        if RangeStart(x) >= AddressSpace then Option.None
        else Some(SeededScope(sharedName, x, subnetId, lease))
  }

  /** The scope seeded for a parsed interface address whose range start is an IPv4 address. */
  function SeededScope(sharedName: Option<string>, x: Iface, subnetId: Option<int>, lease: string): seq<Path>
    requires ValidIface(x) && RangeStart(x) < AddressSpace
  {
    var router := FormatIp(x.ip);
    var base := DhcpBase + [IfaceUtils.NormaliseSharedName(sharedName, router)];
    var id := if subnetId.Some? then IntStr(subnetId.value) else "0";
    ScopePaths(base, NetworkText(x), router, lease, FormatIp(RangeStart(x)), FormatIp(RangeStop(x)), id)
  }

  /** The nine paths of one seeded scope: the shared network, then the subnet and its settings. */
  function ScopePaths(base: Path, subnetText: string, router: string, lease: string, start: string, stop: string, id: string): (r: seq<Path>)
    ensures |r| == 9 && r[0] == base && r[1] == base + ["subnet", subnetText]
    ensures AllUnder(r, base) && AllUnder(r[1..], base + ["subnet", subnetText])
    ensures |r[1]| > 0 && r[1][|r[1]| - 1] == subnetText
    ensures |r[2]| > 0 && r[2][|r[2]| - 1] == router
    ensures |r[3]| > 0 && r[3][|r[3]| - 1] == router
    ensures |r[8]| > 0 && r[8][|r[8]| - 1] == id
  {
    var subnet := Under(base, ["subnet", subnetText]);
    var r := [base,
              subnet,
              Under(subnet, ["option", "default-router", router]),
              Under(subnet, ["option", "name-server", router]),
              Under(subnet, ["option", "domain-name", "vyos.net"]),
              Under(subnet, ["lease", lease]),
              Under(subnet, ["range", "0", "start", start]),
              Under(subnet, ["range", "0", "stop", stop]),
              Under(subnet, ["subnet-id", id])];
    forall i | 1 <= i < 9
      ensures HasPrefix(r[i], subnet) && HasPrefix(r[i], base)
    {
      PrefixTrans(r[i], subnet, base);
    }
    r
  }

  /** No paths exactly when the address is missing, empty or does not parse. */
  lemma DhcpPathsEmptyIff(sharedName: Option<string>, cidr: Option<string>, subnetId: Option<int>, lease: string)
    ensures BuildDhcpPaths(sharedName, cidr, subnetId, lease) == Some([]) <==>
      cidr.None? || ParseInterface(cidr.value).None?
  {
    if cidr.Some? && cidr.value == [] {
      assert Split(cidr.value, '.') == [[]];
      assert !DigitRun([], 3);
    }
  }

  /** Only the broadcast address as a /32 (or with no prefix) makes the source raise. */
  lemma DhcpPathsRaiseIff(sharedName: Option<string>, s: string, subnetId: Option<int>, lease: string)
    requires ParseInterface(s).Some?
    ensures BuildDhcpPaths(sharedName, Some(s), subnetId, lease).None? <==>
      ParseInterface(s).value == Iface(AddressSpace - 1, 32)
  {
    var x := ParseInterface(s).value;
    NetworkBounds(x);
    if x.prefix <= 30 {
      Pow2AtLeastFour(32 - x.prefix);
    } else if x.prefix == 31 {
      assert Size(x) == 2;
    } else {
      assert Size(x) == 1;
      assert AlignDown(x.ip, 1) == x.ip;
    }
  }

  /**
   * Up to /30 the offered range lies strictly inside the network: after the
   * network address, before the broadcast address, and starts at most 20
   * addresses in.
   */
  lemma RangeInsideNetwork(x: Iface)
    requires ValidIface(x) && x.prefix <= 30
    ensures Network(x) < RangeStart(x) <= RangeStop(x) < Broadcast(x)
    ensures RangeStart(x) <= Network(x) + 20
    ensures Size(x) >= 22 ==> RangeStart(x) == Network(x) + 20
  {
    Pow2AtLeastFour(32 - x.prefix);
  }

  /** For /31 and /32 the range is inverted: it starts after it stops. */
  lemma RangeInvertedForTinyNetworks(x: Iface)
    requires ValidIface(x) && x.prefix >= 31
    ensures RangeStart(x) == Network(x) + 1 && RangeStop(x) == Network(x)
    ensures x.prefix == 32 ==> RangeStart(x) == Broadcast(x) + 1
  {
    if x.prefix == 31 {
      assert Size(x) == 2;
    } else {
      assert Size(x) == 1;
    }
  }

  /**
   * Every seeded path lies under the scope's shared network, all but the
   * first under its subnet, and the subnet is the network of the address;
   * the router and name server are the interface address itself.
   */
  /**
   * A parsable address seeds the nine scope paths under the shared network
   * named after it: the subnet, router, name server, domain, lease, range
   * and subnet id (their shape is ScopePaths' contract).
   */
  lemma DhcpPathsShape(sharedName: Option<string>, s: string, x: Iface, subnetId: Option<int>, lease: string, ps: seq<Path>)
    requires ParseInterface(s) == Some(x)
    requires BuildDhcpPaths(sharedName, Some(s), subnetId, lease) == Some(ps)
    ensures ValidIface(x) && RangeStart(x) < AddressSpace
    ensures ps == ScopePaths(DhcpBase + [IfaceUtils.NormaliseSharedName(sharedName, FormatIp(x.ip))], NetworkText(x),
                             FormatIp(x.ip), lease, FormatIp(RangeStart(x)), FormatIp(RangeStop(x)),
                             if subnetId.Some? then IntStr(subnetId.value) else "0")
  {
    DhcpPathsAreScope(sharedName, s, subnetId, lease);
  }

  lemma DhcpPathsAreScope(sharedName: Option<string>, s: string, subnetId: Option<int>, lease: string)
    requires ParseInterface(s).Some?
    requires BuildDhcpPaths(sharedName, Some(s), subnetId, lease).Some?
    ensures var x := ParseInterface(s).value;
      ValidIface(x) && RangeStart(x) < AddressSpace &&
      BuildDhcpPaths(sharedName, Some(s), subnetId, lease) == Some(SeededScope(sharedName, x, subnetId, lease))
  {
    ParsedNotEmpty(s);
  }

  lemma ParsedNotEmpty(s: string)
    requires ParseInterface(s).Some?
    ensures s != []
  {

  }

  /** The router address handed out lies in the subnet the scope serves. */
  lemma RouterInSubnet(x: Iface)
    requires ValidIface(x)
    ensures ParseInterface(NetworkText(x)) == Some(Iface(Network(x), x.prefix))
    ensures Network(x) <= x.ip < Network(x) + Size(x)
  {
    NetworkBounds(x);
    ParseInterfaceText(Iface(Network(x), x.prefix));
  }

  // ---------------------------------------------------------------------------
  // build_dns_paths

  datatype DnsSeed = DnsSeed(commands: seq<Path>, listen: Option<string>, network: Option<string>)

  const DnsForwarding: Path := ["service", "dns", "forwarding"]

  /**
   * build_dns_paths: nothing for a missing, empty, "dhcp" (in any case) or
   * unparsable address; otherwise listen on the interface address and allow
   * queries from its network.
   */
  function BuildDnsPaths(cidr: Option<string>): (r: DnsSeed)
    ensures r.listen.Some? <==> r.network.Some?
    ensures r.listen.None? ==> r.commands == []
    ensures r.listen.Some? ==>
      r.commands == [DnsForwarding + ["listen-address", r.listen.value], DnsForwarding + ["allow-from", r.network.value]]
  {
    if cidr.None? || cidr.value == [] || Lower(cidr.value) == "dhcp" then DnsSeed([], Option.None, Option.None)
    else
      match ParseInterface(cidr.value)
      case None => DnsSeed([], Option.None, Option.None)
      case Some(x) =>
        var ip := FormatIp(x.ip);
        var net := NetworkText(x);
        DnsSeed([DnsForwarding + ["listen-address", ip], DnsForwarding + ["allow-from", net]], Some(ip), Some(net))
  }

  /** "dhcp" never parses as an address, so the DNS commands exist exactly for parsable addresses. */
  lemma DnsPathsIff(cidr: Option<string>)
    ensures BuildDnsPaths(cidr).commands != [] <==> cidr.Some? && ParseInterface(cidr.value).Some?
  {
    if cidr.Some? && cidr.value == [] {
      assert Split(cidr.value, '.') == [[]];
      assert !DigitRun([], 3);
    }
    if cidr.Some? && Lower(cidr.value) == "dhcp" {
      var s := cidr.value;
      assert |s| == 4;
      assert '.' !in s by {
        assert forall i :: 0 <= i < 4 ==> Lower(s)[i] == LowerChar(s[i]);
      }
      assert '/' !in s by {
        assert forall i :: 0 <= i < 4 ==> Lower(s)[i] == LowerChar(s[i]);
      }
      assert Split(s, '/') == [s];
      assert Split(s, '.') == [s];
    }
  }

  /**
   * The DNS forwarder listens on the address the DHCP scope hands out as
   * router and name server, and accepts queries from the scope's subnet.
   */
  lemma DnsMatchesDhcp(sharedName: Option<string>, s: string, x: Iface, subnetId: Option<int>, lease: string)
    requires ParseInterface(s) == Some(x) && Lower(s) != "dhcp"
    requires BuildDhcpPaths(sharedName, Some(s), subnetId, lease).Some?
    ensures var ps := BuildDhcpPaths(sharedName, Some(s), subnetId, lease).value;
      |ps| == 9 && |ps[1]| > 0 && |ps[2]| > 0 &&
      BuildDnsPaths(Some(s)).listen == Some(ps[2][|ps[2]| - 1]) &&
      BuildDnsPaths(Some(s)).network == Some(ps[1][|ps[1]| - 1])
  {
    DnsOf(s, x);
    DhcpPathsShape(sharedName, s, x, subnetId, lease, BuildDhcpPaths(sharedName, Some(s), subnetId, lease).value);
  }

  /** For a parsable address the forwarder listens on the address and allows its network. */
  lemma DnsOf(s: string, x: Iface)
    requires ParseInterface(s) == Some(x) && Lower(s) != "dhcp"
    ensures BuildDnsPaths(Some(s)).listen == Some(FormatIp(x.ip))
    ensures BuildDnsPaths(Some(s)).network == Some(NetworkText(x))
  {
    ParsedNotEmpty(s);
  }

  // ---------------------------------------------------------------------------
  // dns_cache_commands

  const CacheSizePath: Path := ["service", "dns", "forwarding", "cache-size", "0"]

  /** The cache-size value as the source reads it: a valueless node's first key, or None. */
  function ExistingCache(dns: Entries): Node
  {
    var forwarding := Lookup(dns, "forwarding").GetOr(Map([]));
    if !forwarding.Map? then Node.None
    else
      var existing := Get(forwarding.entries, "cache-size");
      if existing.Map? then (if existing.entries == [] then Node.None else Leaf(existing.entries[0].0))
      else existing
  }

  /**
   * dns_cache_commands, with the fetched "service dns" configuration as a
   * parameter: nothing when the cache size already reads "0", otherwise the
   * one path setting it to 0.
   */
  function CacheCommands(dns: Entries): (r: seq<Path>)
    ensures r == [] <==> Str(ExistingCache(dns)) == "0"
    ensures r != [] ==> r == [CacheSizePath]
  {
    if Str(ExistingCache(dns)) == "0" then [] else [CacheSizePath]
  }

  /** Once the cache size is set to 0, no further command is generated. */
  lemma CacheCommandsSettle(dns: Entries, forwarding: Entries)
    requires Lookup(dns, "forwarding") == Some(Map(forwarding))
    ensures CacheCommands(MapPut(dns, "forwarding", Map(MapPut(forwarding, "cache-size", Leaf("0"))))) == []
  {
    var f' := MapPut(forwarding, "cache-size", Leaf("0"));
    MapPutLookup(forwarding, "cache-size", Leaf("0"), "cache-size");
    MapPutLookup(dns, "forwarding", Map(f'), "forwarding");
  }

  // ---------------------------------------------------------------------------
  // get_next_subnet_id and has_active_dhcp_scope (tolerant readers)

  /** What the loops iterate over: a dictionary's values, a list's items, nothing otherwise. */
  function Members(n: Node): (r: seq<Node>)
    ensures n.Map? ==> |r| == |n.entries| && forall i :: 0 <= i < |r| ==> r[i] == n.entries[i].1
    ensures n.List? ==> r == n.items
  {
    match n
    case Map(m) => seq(|m|, i requires 0 <= i < |m| => m[i].1)
    case List(xs) => xs
    case _ => []
  }

  function Networks(config: Entries): seq<Node>
  {
    Members(Get(config, "shared-network-name"))
  }

  /** The subnets of a shared network; anything but a dictionary has none. */
  function SubnetsOf(network: Node): seq<Node>
  {
    if network.Map? then Members(Get(network.entries, "subnet")) else []
  }

  /**
   * The id one subnet contributes: int() of its subnet-id, or of the first
   * key of a valueless-node dictionary; None when there is none or int() fails.
   */
  function SubnetIdOf(subnet: Node): Option<int>
  {
    if !subnet.Map? then Option.None
    else
      match Get(subnet.entries, "subnet-id")
      case None => Option.None
      case Map(m) => if m == [] then Option.None else ParseInt(m[0].0)
      case Leaf(t) => ParseInt(t)
      case List(_) => Option.None
  }

  function IdsOf(subnets: seq<Node>): (ids: set<int>)
    ensures forall k :: k in ids <==> exists j :: 0 <= j < |subnets| && SubnetIdOf(subnets[j]) == Some(k)
  {
    if subnets == [] then {}
    else
      var rest := IdsOf(subnets[1..]);
      assert forall j :: 1 <= j < |subnets| ==> subnets[1..][j - 1] == subnets[j];
      var id := SubnetIdOf(subnets[0]);
      (if id.Some? then {id.value} else {}) + rest
  }

  /** Some subnet of the i-th shared network uses id `k`. */
  predicate IdIn(networks: seq<Node>, i: int, k: int)
  {
    0 <= i < |networks| && k in IdsOf(SubnetsOf(networks[i]))
  }

  function ExistingIdsFrom(networks: seq<Node>): (ids: set<int>)
    ensures forall k :: k in ids <==> exists i :: IdIn(networks, i, k)
  {
    if networks == [] then {}
    else
      var head := IdsOf(SubnetsOf(networks[0]));
      var rest := ExistingIdsFrom(networks[1..]);
      IdInCons(networks);
      head + rest
  }

  lemma IdInCons(networks: seq<Node>)
    requires networks != []
    ensures forall k :: (exists i :: IdIn(networks, i, k)) <==>
      k in IdsOf(SubnetsOf(networks[0])) || exists i :: IdIn(networks[1..], i, k)
  {
    forall k ensures (exists i :: IdIn(networks, i, k)) <==>
      k in IdsOf(SubnetsOf(networks[0])) || exists i :: IdIn(networks[1..], i, k)
    {
      if exists i :: IdIn(networks, i, k) {
        var i :| IdIn(networks, i, k);
        if i > 0 {
          assert networks[1..][i - 1] == networks[i];
          assert IdIn(networks[1..], i - 1, k);
        }
      }
      if exists i :: IdIn(networks[1..], i, k) {
        var i :| IdIn(networks[1..], i, k);
        assert networks[1..][i] == networks[i + 1];
        assert IdIn(networks, i + 1, k);
      }
      if k in IdsOf(SubnetsOf(networks[0])) {
        assert IdIn(networks, 0, k);
      }
    }
  }

  /** The ids the loops of get_next_subnet_id collect. */
  function ExistingIds(config: Entries): set<int>
  {
    ExistingIdsFrom(Networks(config))
  }

  /**
   * get_next_subnet_id of interfaces/dhcp.py: the least positive id no
   * subnet of any shared network uses.
   */
  method NextSubnetId(config: Entries) returns (r: int)
    ensures r >= 1 && r !in ExistingIds(config)
    ensures forall k :: 1 <= k < r ==> k in ExistingIds(config)
  {
    r := DhcpUtils.NextFreeId(ExistingIds(config));
  }

  /** A subnet-id stored as a valueless node counts by its key. */
  lemma DictEncodedId(subnet: Entries, key: string, rest: Entries)
    requires Lookup(subnet, "subnet-id") == Some(Map([(key, Node.None)] + rest))
    ensures SubnetIdOf(Map(subnet)) == ParseInt(key)
  {
  }

  /** Neither disabled nor anything but a dictionary. */
  predicate Enabled(n: Node)
  {
    n.Map? && Get(n.entries, "disable").None?
  }

  /** The specification of has_active_dhcp_scope: an enabled subnet inside an enabled shared network. */
  predicate HasActiveScope(config: Entries)
  {
    exists i, j :: 0 <= i < |Networks(config)| && Enabled(Networks(config)[i]) &&
      0 <= j < |SubnetsOf(Networks(config)[i])| && Enabled(SubnetsOf(Networks(config)[i])[j])
  }

  /** The inner loop: the first subnet that is a dictionary without "disable" ends the search. */
  method AnyEnabledSubnet(subnets: seq<Node>) returns (found: bool)
    ensures found <==> exists j :: 0 <= j < |subnets| && Enabled(subnets[j])
  {
    var j := 0;
    while j < |subnets|
      invariant 0 <= j <= |subnets|
      invariant forall k :: 0 <= k < j ==> !Enabled(subnets[k])
    {
      if Enabled(subnets[j]) {
        return true;
      }
      j := j + 1;
    }
    return false;
  }

  /** has_active_dhcp_scope with the DHCP configuration as a parameter. */
  method HasActiveDhcpScope(config: Entries) returns (active: bool)
    ensures active <==> HasActiveScope(config)
  {
    var networks := Networks(config);
    var i := 0;
    while i < |networks|
      invariant 0 <= i <= |networks|
      invariant forall k, j ::
          0 <= k < i && Enabled(networks[k]) && 0 <= j < |SubnetsOf(networks[k])| ==> !Enabled(SubnetsOf(networks[k])[j])
    {
      if Enabled(networks[i]) {
        var found := AnyEnabledSubnet(SubnetsOf(networks[i]));
        if found {
          return true;
        }
      }
      i := i + 1;
    }
    return false;
  }

  /** Disabling every shared network leaves no active scope. */
  lemma AllDisabledInactive(config: Entries)
    requires forall i :: 0 <= i < |Networks(config)| ==> !Enabled(Networks(config)[i])
    ensures !HasActiveScope(config)
  {
  }
}
