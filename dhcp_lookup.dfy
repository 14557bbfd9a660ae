/**
 * get_dhcp: the scope shown for one interface. The DHCP shared networks are
 * searched in order for the first subnet that is one of the interface's own
 * subnets (any subnet when the interface has none); its options, range, lease
 * and static mappings are read with their defaults. Without a match, the first
 * subnet of the first shared network named like the interface or its
 * description is shown; without that either, the view holds the defaults for
 * creating a new scope.
 *
 * The interface's subnets and its address come from Python's ipaddress
 * module; they are inputs here.
 */
module DhcpLookup {
  import opened Wrappers
  import opened Text
  import opened ConfigTree
  import DhcpUtils

  datatype MappingView = MappingView(name: string, fields: seq<(string, string)>)

  datatype ScopeView = ScopeView(
    sharedNetwork: string, subnet: string, subnetId: string, defaultRouter: string, domainName: string,
    dnsServers: seq<string>, searchDomains: seq<string>, startAddress: string, endAddress: string,
    lease: string, excludes: seq<string>, authoritative: bool, staticMappings: seq<MappingView>,
    enabled: bool, isConfigured: bool)

  const DefaultLease := "86400"
  const DefaultDomain := "vyos.net"

  /** The static-mapping fields shown when present: configuration key, then view key. */
  const MappingFields: seq<(string, string)> := [
    ("mac", "mac"), ("duid", "duid"), ("ip-address", "ipAddress"),
    ("ipv6-address", "ipv6Address"), ("ipv6-prefix", "ipv6Prefix"), ("hostname", "hostname")]

  // ---------------------------------------------------------------------------
  // Field values

  /** `strip_or_none(v) or fallback` */
  function TextOr(v: Node, fallback: string): (r: string)
    ensures r == fallback || (r != [] && DhcpUtils.Trimmed(r))
    ensures v.None? ==> r == fallback
    ensures v.Leaf? && Strip(v.text) != [] ==> r == Strip(v.text)
  {
    var s := StripOrNone(v);
    if s.Some? && s.value != [] then
      var r := s.value;
      assert r == [] || (!IsSpace(r[0]) && !IsSpace(r[|r| - 1]));
      r
    else fallback
  }

  /** `strip_or_none(x)` is a non-blank string. */
  predicate Kept(x: Node)
  {
    !x.None? && Strip(Str(x)) != []
  }

  /** `[strip_or_none(x) for x in xs if strip_or_none(x)]` */
  function KeptValues(xs: seq<Node>): (r: seq<string>)
    ensures |r| <= |xs|
    ensures forall v :: v in r ==> v != [] && DhcpUtils.Trimmed(v)
    ensures forall v :: v in r <==> exists x :: x in xs && Kept(x) && Strip(Str(x)) == v
  {
    if xs == [] then []
    else
      var head := if Kept(xs[0]) then [TextOr(xs[0], "")] else [];
      var rest := KeptValues(xs[1..]);
      assert forall x :: x in xs <==> x == xs[0] || x in xs[1..];
      head + rest
  }

  /**
   * A list-valued option (name-server, domain-search, exclude): the kept items of
   * a list, a truthy scalar on its own (stripped, even when that leaves it blank),
   * and nothing otherwise.
   */
  function ValueList(v: Node): (r: seq<string>)
    ensures v.List? ==> r == KeptValues(v.items)
    ensures !v.List? && Truthy(v) ==> r == [Strip(Str(v))]
    ensures !v.List? && !Truthy(v) ==> r == []
  {
    if v.List? then KeptValues(v.items)
    else if Truthy(v) then [Strip(Str(v))]
    else []
  }

  /** The first range's start and stop, blank when the subnet has no range. */
  function RangeBounds(subnet: Entries): (r: (string, string))
    ensures MappingOf(Get(subnet, "range")) == [] ==> r == ("", "")
  {
    var ranges := MappingOf(Get(subnet, "range"));
    if ranges != [] then
      var first := MappingOf(Get(ranges, "0"));
      (TextOr(Get(first, "start"), ""), TextOr(Get(first, "stop"), ""))
    else ("", "")
  }

  /** The fields of `fs` whose configuration key `m` holds, in the order of `fs`. */
  function PresentFields(m: Entries, fs: seq<(string, string)>): (r: seq<(string, string)>)
    ensures |r| <= |fs|
    ensures forall i :: 0 <= i < |fs| && fs[i].0 in Keys(m) ==> (fs[i].1, TextOr(Get(m, fs[i].0), "")) in r
    ensures forall p :: p in r ==> exists i :: 0 <= i < |fs| && fs[i].0 in Keys(m) && p == (fs[i].1, TextOr(Get(m, fs[i].0), ""))
  {
    if fs == [] then []
    else
      var head := if fs[0].0 in Keys(m) then [(fs[0].1, TextOr(Get(m, fs[0].0), ""))] else [];
      var rest := PresentFields(m, fs[1..]);
      assert forall i :: 1 <= i < |fs| ==> fs[i] == fs[1..][i - 1];
      head + rest
  }

  /** One static mapping: its stripped name and the fields its entry holds. */
  function MappingOfEntry(name: string, details: Node): (r: MappingView)
    ensures r.name == Strip(name)
    ensures |r.fields| <= |MappingFields|
  {
    MappingView(Strip(name), PresentFields(MappingOf(details), MappingFields))
  }

  /** The static mappings of a subnet's container, one per entry in order. */
  function MappingViews(container: Entries): (r: seq<MappingView>)
    ensures |r| == |container|
    ensures forall i :: 0 <= i < |r| ==> r[i] == MappingOfEntry(container[i].0, container[i].1)
  {
    seq(|container|, i requires 0 <= i < |container| => MappingOfEntry(container[i].0, container[i].1))
  }

  /** The subnet's `disable` flag and its shared network's both leave the scope on. */
  predicate ScopeEnabled(shared: Entries, subnet: Entries)
  {
    "disable" !in Keys(shared) && "disable" !in Keys(subnet)
  }

  /** The view of a configured scope: subnet `subnetValue` of shared network `sharedName`. */
  function SubnetView(sharedName: string, sharedInfo: Node, subnetValue: string, subnetInfo: Node, interfaceIp: string)
    : (r: ScopeView)
    ensures r.isConfigured && r.sharedNetwork == sharedName && r.subnet == subnetValue
    ensures r.lease != [] && r.domainName != []
    ensures r.enabled <==> ScopeEnabled(MappingOf(sharedInfo), MappingOf(subnetInfo))
    ensures r.authoritative <==> "authoritative" in Keys(MappingOf(sharedInfo))
    ensures Get(MappingOf(Get(MappingOf(subnetInfo), "option")), "default-router").None? ==> r.defaultRouter == interfaceIp
    ensures |r.staticMappings| == |MappingOf(Get(MappingOf(subnetInfo), "static-mapping"))|
  {
    var shared := MappingOf(sharedInfo);
    var subnet := MappingOf(subnetInfo);
    var options := MappingOf(Get(subnet, "option"));
    var bounds := RangeBounds(subnet);
    ScopeView(
      sharedName, subnetValue,
      TextOr(Get(subnet, "subnet-id"), ""),
      TextOr(Get(options, "default-router"), interfaceIp),
      TextOr(Get(options, "domain-name"), DefaultDomain),
      ValueList(Get(options, "name-server")),
      ValueList(Get(options, "domain-search")),
      bounds.0, bounds.1,
      TextOr(Get(subnet, "lease"), DefaultLease),
      ValueList(Get(subnet, "exclude")),
      "authoritative" in Keys(shared),
      MappingViews(MappingOf(Get(subnet, "static-mapping"))),
      ScopeEnabled(shared, subnet),
      true)
  }

  /** The defaults offered for creating a scope on an interface without one. */
  function DefaultView(iface: string, description: string, interfaceIp: string, subnets: seq<string>): (r: ScopeView)
    ensures !r.isConfigured && !r.enabled && !r.authoritative
    ensures r.sharedNetwork == (if description != [] then description else iface)
    ensures subnets != [] ==> r.subnet == subnets[0]
    ensures r.lease == DefaultLease && r.domainName == DefaultDomain
    ensures r.dnsServers == [] && r.searchDomains == [] && r.excludes == [] && r.staticMappings == []
  {
    ScopeView(
      if description != [] then description else iface,
      if subnets != [] then subnets[0] else "",
      "", Strip(interfaceIp), DefaultDomain, [], [], "", "", DefaultLease, [], false, [], false, false)
  }

  // ---------------------------------------------------------------------------
  // Matching a subnet to the interface

  /** The subnets of one shared network, as `ensure_dict(ensure_dict(info).get("subnet"))`. */
  function SubnetsOf(sharedInfo: Node): Entries
  {
    MappingOf(Get(MappingOf(sharedInfo), "subnet"))
  }

  /** A subnet that may describe the interface: one of its subnets, or any when it has none. */
  predicate Eligible(subnets: seq<string>, subnet: string)
  {
    subnets == [] || subnet in subnets
  }

  predicate NoEligibleSubnet(entries: Entries, subnets: seq<string>, upto: int)
  {
    forall j :: 0 <= j < upto && j < |entries| ==> !Eligible(subnets, entries[j].0)
  }

  predicate NoEligibleNetwork(networks: Entries, subnets: seq<string>, upto: int)
  {
    forall i :: 0 <= i < upto && i < |networks| ==>
      NoEligibleSubnet(SubnetsOf(networks[i].1), subnets, |SubnetsOf(networks[i].1)|)
  }

  /** Subnet `j` of shared network `i` is the first eligible one in iteration order. */
  predicate FirstEligible(networks: Entries, subnets: seq<string>, i: int, j: int)
  {
    0 <= i < |networks| && 0 <= j < |SubnetsOf(networks[i].1)| &&
    Eligible(subnets, SubnetsOf(networks[i].1)[j].0) &&
    NoEligibleNetwork(networks, subnets, i) && NoEligibleSubnet(SubnetsOf(networks[i].1), subnets, j)
  }

  /** The search over one shared network's subnets. */
  method FindSubnet(entries: Entries, subnets: seq<string>) returns (found: Option<nat>)
    ensures found.None? ==> NoEligibleSubnet(entries, subnets, |entries|)
    ensures found.Some? ==>
      found.value < |entries| && Eligible(subnets, entries[found.value].0) && NoEligibleSubnet(entries, subnets, found.value)
  {
    var j := 0;
    while j < |entries|
      invariant 0 <= j <= |entries|
      invariant NoEligibleSubnet(entries, subnets, j)
    {
      if Eligible(subnets, entries[j].0) {
        return Some(j);
      }
      j := j + 1;
    }
    return Option.None;
  }

  lemma NoEligibleNetworkStep(networks: Entries, subnets: seq<string>, i: nat)
    requires i < |networks| && NoEligibleNetwork(networks, subnets, i)
    requires NoEligibleSubnet(SubnetsOf(networks[i].1), subnets, |SubnetsOf(networks[i].1)|)
    ensures NoEligibleNetwork(networks, subnets, i + 1)
  {
  }

  /** The nested search of get_dhcp: shared networks in order, then their subnets. */
  method FindScope(networks: Entries, subnets: seq<string>) returns (found: Option<(nat, nat)>)
    ensures found.None? ==> NoEligibleNetwork(networks, subnets, |networks|)
    ensures found.Some? ==> FirstEligible(networks, subnets, found.value.0, found.value.1)
  {
    var i := 0;
    while i < |networks|
      invariant 0 <= i <= |networks|
      invariant NoEligibleNetwork(networks, subnets, i)
    {
      var j := FindSubnet(SubnetsOf(networks[i].1), subnets);
      if j.Some? {
        return Some((i, j.value));
      }
      NoEligibleNetworkStep(networks, subnets, i);
      i := i + 1;
    }
    return Option.None;
  }

  /** At most one subnet is the first eligible one. */
  lemma FirstEligibleUnique(networks: Entries, subnets: seq<string>, i: int, j: int, i': int, j': int)
    requires FirstEligible(networks, subnets, i, j) && FirstEligible(networks, subnets, i', j')
    ensures i == i' && j == j'
  {
  }

  /** When no subnet is eligible, the interface has subnets and none is configured. */
  lemma NoneEligibleMeansOwnSubnets(networks: Entries, subnets: seq<string>)
    requires NoEligibleNetwork(networks, subnets, |networks|)
    requires exists i :: 0 <= i < |networks| && SubnetsOf(networks[i].1) != []
    ensures subnets != []
  {
    var i :| 0 <= i < |networks| && SubnetsOf(networks[i].1) != [];
    assert NoEligibleSubnet(SubnetsOf(networks[i].1), subnets, |SubnetsOf(networks[i].1)|);
    assert !Eligible(subnets, SubnetsOf(networks[i].1)[0].0);
  }

  // ---------------------------------------------------------------------------
  // Reading a matched scope

  lemma MappingViewsSnoc(container: Entries, k: nat)
    requires k < |container|
    ensures MappingViews(container[..k + 1]) == MappingViews(container[..k]) + [MappingOfEntry(container[k].0, container[k].1)]
  {
    var a := MappingViews(container[..k + 1]);
    var b := MappingViews(container[..k]) + [MappingOfEntry(container[k].0, container[k].1)];
    assert |a| == |b|;
    forall m | 0 <= m < |a| ensures a[m] == b[m] {
      assert container[..k + 1][m] == container[m];
    }
  }

  /** The static-mapping loop of get_dhcp. */
  method ReadStaticMappings(container: Entries) returns (mappings: seq<MappingView>)
    ensures mappings == MappingViews(container)
  {
    mappings := [];
    var k := 0;
    while k < |container|
      invariant 0 <= k <= |container|
      invariant mappings == MappingViews(container[..k])
    {
      var entry := container[k];
      mappings := mappings + [MappingOfEntry(entry.0, entry.1)];
      MappingViewsSnoc(container, k);
      k := k + 1;
    }
    assert container[..k] == container;
  }

  /** The shared networks of the DHCP server configuration. */
  function SharedNetworks(dhcpConfig: Entries): Entries
  {
    MappingOf(Get(dhcpConfig, "shared-network-name"))
  }

  /** Builds the view of subnet `j` of shared network `i`, reading its mappings with the loop. */
  method MatchedView(networks: Entries, i: nat, j: nat, interfaceIp: string) returns (view: ScopeView)
    requires i < |networks| && j < |SubnetsOf(networks[i].1)|
    ensures view == SubnetView(networks[i].0, networks[i].1, SubnetsOf(networks[i].1)[j].0, SubnetsOf(networks[i].1)[j].1, interfaceIp)
  {
    var entry := SubnetsOf(networks[i].1)[j];
    var subnet := MappingOf(entry.1);
    var mappings := ReadStaticMappings(MappingOf(Get(subnet, "static-mapping")));
    view := SubnetView(networks[i].0, networks[i].1, entry.0, entry.1, interfaceIp).(staticMappings := mappings);
  }

  // ---------------------------------------------------------------------------
  // The name fallback

  /** A shared network named like the interface or its description, ignoring ASCII case. */
  predicate NamedFor(name: string, iface: string, description: string)
  {
    Lower(name) == Lower(iface) || Lower(name) == Lower(description)
  }

  /** No shared network before `upto` is named for the interface and has a subnet. */
  predicate NoNamedBefore(networks: Entries, iface: string, description: string, upto: int)
  {
    forall k :: 0 <= k < upto ==> !NamedWithSubnet(networks, iface, description, k)
  }

  /** Shared network `k` is named for the interface and has a subnet. */
  predicate NamedWithSubnet(networks: Entries, iface: string, description: string, k: int)
  {
    0 <= k < |networks| && NamedFor(networks[k].0, iface, description) && SubnetsOf(networks[k].1) != []
  }

  lemma NoNamedStep(networks: Entries, iface: string, description: string, i: nat)
    requires NoNamedBefore(networks, iface, description, i) && !NamedWithSubnet(networks, iface, description, i)
    ensures NoNamedBefore(networks, iface, description, i + 1)
  {
  }

  /** Shared network `i` is the first named one that has a subnet. */
  predicate FirstNamed(networks: Entries, iface: string, description: string, i: int)
  {
    NamedWithSubnet(networks, iface, description, i) && NoNamedBefore(networks, iface, description, i)
  }

  /** The name search of the fallback: the first named shared network that has a subnet. */
  method FindNamed(networks: Entries, iface: string, description: string) returns (found: Option<nat>)
    ensures found.Some? ==> FirstNamed(networks, iface, description, found.value)
    ensures found.None? ==> NoNamedBefore(networks, iface, description, |networks|)
  {
    var i := 0;
    while i < |networks|
      invariant 0 <= i <= |networks|
      invariant NoNamedBefore(networks, iface, description, i)
    {
      if NamedWithSubnet(networks, iface, description, i) {
        return Some(i);
      }
      NoNamedStep(networks, iface, description, i);
      i := i + 1;
    }
    return Option.None;
  }

  /**
   * The scope part of get_dhcp: the first subnet match; without one, the first
   * subnet of the first shared network named like the interface or its
   * description (ignoring case); without that, the defaults for a new scope.
   */
  method GetDhcpScope(iface: string, description: string, interfaceIp: string, subnets: seq<string>, dhcpConfig: Entries)
    returns (view: ScopeView)
    ensures view.isConfigured <==>
      !NoEligibleNetwork(SharedNetworks(dhcpConfig), subnets, |SharedNetworks(dhcpConfig)|) ||
      !NoNamedBefore(SharedNetworks(dhcpConfig), iface, description, |SharedNetworks(dhcpConfig)|)
    ensures !NoEligibleNetwork(SharedNetworks(dhcpConfig), subnets, |SharedNetworks(dhcpConfig)|) ==>
      exists i, j :: (FirstEligible(SharedNetworks(dhcpConfig), subnets, i, j) &&
        view == SubnetView(SharedNetworks(dhcpConfig)[i].0, SharedNetworks(dhcpConfig)[i].1,
                           SubnetsOf(SharedNetworks(dhcpConfig)[i].1)[j].0, SubnetsOf(SharedNetworks(dhcpConfig)[i].1)[j].1,
                           interfaceIp))
    ensures NoEligibleNetwork(SharedNetworks(dhcpConfig), subnets, |SharedNetworks(dhcpConfig)|) ==>
      (exists i :: FirstNamed(SharedNetworks(dhcpConfig), iface, description, i) &&
        view == SubnetView(SharedNetworks(dhcpConfig)[i].0, SharedNetworks(dhcpConfig)[i].1,
                           SubnetsOf(SharedNetworks(dhcpConfig)[i].1)[0].0, SubnetsOf(SharedNetworks(dhcpConfig)[i].1)[0].1,
                           interfaceIp)) ||
      (NoNamedBefore(SharedNetworks(dhcpConfig), iface, description, |SharedNetworks(dhcpConfig)|) &&
       view == DefaultView(iface, description, interfaceIp, subnets))
  {
    var networks := SharedNetworks(dhcpConfig);
    var found := FindScope(networks, subnets);
    if found.Some? {
      var (i, j) := found.value;
      view := MatchedView(networks, i, j, interfaceIp);
    } else {
      var named := FindNamed(networks, iface, description);
      if named.Some? {
        view := MatchedView(networks, named.value, 0, interfaceIp);
      } else {
        view := DefaultView(iface, description, interfaceIp, subnets);
      }
    }
  }

  // ---------------------------------------------------------------------------
  // The name fallback on one configuration

  /** A configuration whose only shared network is named after the interface's description. */
  function NamedOnlyConfig(name: string, subnet: string): Entries
  {
    [("shared-network-name", Map([(name, Map([("subnet", Map([(subnet, Map([]))]))]))]))]
  }

  lemma NamedOnlyNetworks(name: string, subnet: string)
    ensures SharedNetworks(NamedOnlyConfig(name, subnet)) == [(name, Map([("subnet", Map([(subnet, Map([]))]))]))]
    ensures SubnetsOf(SharedNetworks(NamedOnlyConfig(name, subnet))[0].1) == [(subnet, Map([]))]
  {
  }

  /**
   * A scope filed under the description's name is shown, configured and with
   * its own subnet, even when that subnet is not one of the interface's.
   */
  lemma NamedScopeShown(view: ScopeView, iface: string, description: string, interfaceIp: string, own: string, other: string)
    requires own != other
    requires
      var networks := SharedNetworks(NamedOnlyConfig(description, other));
      (exists i :: FirstNamed(networks, iface, description, i) &&
        view == SubnetView(networks[i].0, networks[i].1, SubnetsOf(networks[i].1)[0].0, SubnetsOf(networks[i].1)[0].1, interfaceIp)) ||
      (NoNamedBefore(networks, iface, description, |networks|) &&
       view == DefaultView(iface, description, interfaceIp, [own]))
    ensures view.isConfigured && view.sharedNetwork == description && view.subnet == other
  {
    NamedOnlyNetworks(description, other);
    var networks := SharedNetworks(NamedOnlyConfig(description, other));
    assert NamedFor(networks[0].0, iface, description);
    var i :| FirstNamed(networks, iface, description, i) &&
      view == SubnetView(networks[i].0, networks[i].1, SubnetsOf(networks[i].1)[0].0, SubnetsOf(networks[i].1)[0].1, interfaceIp);
  }
}
