/**
 * Firewall groups (app/modules/firewall_groups): the group types and their
 * member keys, reading the groups out of the "firewall group" configuration,
 * the set and delete paths of one group, the name and member validators, and
 * the create, update and delete handlers up to the device call.
 *
 * The validators follow Python's re.match with a pattern anchored by ^ and $:
 * `$` also matches just before one final newline, so a text is accepted when
 * the pattern covers it whole, or covers it without that newline (Chomp).
 */
module FirewallGroups {
  import opened Wrappers
  import opened Text
  import opened ConfigTree
  import opened Paths
  import opened Device
  import opened Sorting
  import Ipv4
  import StaticRoutes

  // ---------------------------------------------------------------------------
  // GROUP_TYPES

  /** The group types, in the order of the GROUP_TYPES dict. */
  const GroupTypes: seq<string> := ["address-group", "domain-group", "interface-group", "mac-group",
    "network-group", "port-group", "remote-group", "dynamic-group", "ipv6-address-group", "ipv6-network-group"]

  /** The key the members of a group of type `t` sit under. */
  function MemberKey(t: string): (k: string)
  {
    if t == "interface-group" then "interface"
    else if t == "mac-group" then "mac-address"
    else if t == "network-group" || t == "ipv6-network-group" then "network"
    else if t == "port-group" then "port"
    else if t == "remote-group" then "url"
    else "address"
  }

  function DisplayName(t: string): string
  {
    match t
    case "address-group" => "Address Group"
    case "domain-group" => "Domain Group"
    case "interface-group" => "Interface Group"
    case "mac-group" => "MAC Group"
    case "network-group" => "Network Group"
    case "port-group" => "Port Group"
    case "remote-group" => "Remote Group"
    case "dynamic-group" => "Dynamic Group"
    case "ipv6-address-group" => "IPv6 Address Group"
    case _ => "IPv6 Network Group"
  }

  function Icon(t: string): string
  {
    match t
    case "address-group" => "location_on"
    case "domain-group" => "language"
    case "interface-group" => "settings_ethernet"
    case "mac-group" => "router"
    case "network-group" => "cloud"
    case "port-group" => "power"
    case "remote-group" => "cloud_download"
    case "dynamic-group" => "dynamic_feed"
    case "ipv6-address-group" => "language"
    case _ => "cloud"
  }

  // ---------------------------------------------------------------------------
  // Pattern helpers

  /** The text `$` leaves to the rest of the pattern: without one final newline. */
  function Chomp(s: string): (r: string)
    ensures s == r || s == r + "\n"
  {
    if |s| > 0 && s[|s| - 1] == '\n' then s[..|s| - 1] else s
  }

  /** A text without a final newline is its own Chomp; one with it loses just that newline. */
  lemma ChompOf(t: string)
    requires t == [] || t[|t| - 1] != '\n'
    ensures Chomp(t) == t && Chomp(t + "\n") == t
  {
    assert (t + "\n")[..|t|] == t;
  }

  /** Splitting at `c` gives two parts exactly when `c` occurs once. */
  ghost predicate OneSep(s: string, c: char)
  {
    exists a, b :: c !in a && c !in b && s == a + [c] + b
  }

  lemma SplitTwoIff(s: string, c: char)
    ensures |Split(s, c)| == 2 <==> OneSep(s, c)
  {
    var parts := Split(s, c);
    if |parts| == 2 {
      JoinSplit(s, c);
      assert parts[1..] == [parts[1]];
      assert parts[0] in parts && parts[1] in parts;
      assert s == parts[0] + [c] + parts[1];
    }
    if OneSep(s, c) {
      var a, b :| c !in a && c !in b && s == a + [c] + b;
      assert [a, b][1..] == [b];
      assert Join([a, b], [c]) == s;
      SplitJoin([a, b], c);
    }
  }

  /** A text `a` + [c] + `b` whose halves lack `c` has one `c`, and so splits in two. */
  lemma OneSepIntro(a: string, c: char, b: string)
    requires c !in a && c !in b
    ensures c in a + [c] + b && OneSep(a + [c] + b, c) && |Split(a + [c] + b, c)| == 2
  {
    assert (a + [c] + b)[|a|] == c;
    SplitTwoIff(a + [c] + b, c);
  }

  /** Two separators in a row never leave two parts. */
  lemma TwoSepsNotOne(a: string, c: char, b: string, d: string)
    requires c !in a && c !in b && c !in d
    ensures c in a + [c] + b + [c] + d && |Split(a + [c] + b + [c] + d, c)| == 3
  {
    var s := a + [c] + b + [c] + d;
    assert [a, b, d][1..] == [b, d] && [b, d][1..] == [d];
    assert Join([b, d], [c]) == b + [c] + d;
    assert Join([a, b, d], [c]) == a + [c] + (b + [c] + d);
    assert s == a + [c] + (b + [c] + d);
    SplitJoin([a, b, d], c);
    assert s[|a|] == c;
  }

  /** [a-zA-Z][a-zA-Z0-9_-]* over the whole text. */
  predicate IdentChar(c: char) { IsAlnum(c) || c == '_' || c == '-' }

  predicate IdentText(s: string)
  {
    |s| > 0 && IsAlpha(s[0]) && forall i :: 0 <= i < |s| ==> IdentChar(s[i])
  }

  // ---------------------------------------------------------------------------
  // validate_group_name

  /** The validator's answer: None when valid, else the message it returns. */
  function ValidateGroupName(name: string): (r: Option<string>)
  {
    if name == [] then Some(NameRequired)
    else if |name| > 63 then Some(NameTooLong)
    else if !IdentText(Chomp(name)) then Some(NameMalformed)
    else Option.None
  }

  const NameRequired := "Group name is required"
  const NameTooLong := "Group name must be 63 characters or less"
  const NameMalformed := "Group name must start with a letter and contain only letters, numbers, dashes, and underscores"

  /**
   * A name without a newline is accepted exactly when it has 1 to 63
   * characters, starts with a letter and uses only letters, digits, "_" and
   * "-"; the pattern's `$` also lets one final newline through.
   */
  lemma GroupNameIff(name: string)
    requires '\n' !in name
    ensures ValidateGroupName(name).None? <==>
      1 <= |name| <= 63 && IsAlpha(name[0]) && forall c :: c in name ==> IdentChar(c)
  {
    if name != [] {
      assert name[|name| - 1] in name;
      assert Chomp(name) == name;
    }
    if ValidateGroupName(name).None? {
      forall c | c in name ensures IdentChar(c) {
        var i :| 0 <= i < |name| && name[i] == c;
      }
    }
  }

  /** One final newline is let through: "web\n" is as good a name as "web". */
  lemma GroupNameNewline(name: string)
    requires name != [] && name[|name| - 1] != '\n' && |name| < 63
    ensures ValidateGroupName(name + "\n") == ValidateGroupName(name)
  {
    ChompOf(name);
  }

  // ---------------------------------------------------------------------------
  // validate_address

  /** One group of ^([0-9a-fA-F]{0,4}:){2,7}[0-9a-fA-F]{0,4}$: at most four hex digits. */
  predicate HexGroup(p: string)
  {
    |p| <= 4 && forall i :: 0 <= i < |p| ==> IsHex(p[i])
  }

  /** The IPv6 pattern: 3 to 8 colon-separated groups of at most four hex digits. */
  predicate Ipv6Shape(s: string)
  {
    var parts := Split(s, ':');
    3 <= |parts| <= 8 && forall i :: 0 <= i < |parts| ==> HexGroup(parts[i])
  }

  function ValidateAddress(address: string): (r: Option<string>)
  {
    if address == [] then Some("Address is required")
    else if '-' in address then
      if |Split(address, '-')| != 2 then Some("Invalid address range format") else Option.None
    else if StaticRoutes.PyQuadMatch(address).Some? || Ipv6Shape(Chomp(address)) then Option.None
    else Some("Invalid IP address format")
  }

  /** A range is accepted with any halves at all, as long as there is exactly one "-". */
  lemma AddressRangeUnchecked(a: string, b: string)
    requires '-' !in a && '-' !in b
    ensures ValidateAddress(a + "-" + b).None?
  {
    OneSepIntro(a, '-', b);
  }

  /** A text with a "-" is accepted exactly when it has only one. */
  lemma AddressWithDash(address: string)
    requires '-' in address
    ensures ValidateAddress(address).None? <==> OneSep(address, '-')
  {
    SplitTwoIff(address, '-');
  }

  /** Dotted quads pass with any 1 to 3 digit octets: 999.999.999.999 is an address here. */
  lemma AddressOctetsUnchecked(q: seq<string>)
    requires |q| == 4 && forall i :: 0 <= i < 4 ==> Ipv4.DigitRun(q[i], 3)
    ensures ValidateAddress(Join(q, ".")).None?
  {
    StaticRoutes.QuadShapeComplete(q);
    var s := Join(q, ".");
    StaticRoutes.JoinFour(q);
    assert s != [] && s[|s| - 1] == q[3][|q[3]| - 1];
    assert '-' !in s by {
      forall i | 0 <= i < 4 ensures '-' !in q[i] {
        Ipv4.AllDigitsAvoid(q[i], '-');
      }
      assert s == q[0] + "." + q[1] + "." + q[2] + "." + q[3];
    }
  }

  // ---------------------------------------------------------------------------
  // validate_domain

  predicate IsLabelChar(c: char) { IsAlnum(c) || c == '-' }

  /** [a-zA-Z0-9]([a-zA-Z0-9\-]{0,61}[a-zA-Z0-9])?: 1 to 63 characters, alphanumeric at both ends. */
  predicate IsLabel(l: string)
  {
    1 <= |l| <= 63 && IsAlnum(l[0]) && IsAlnum(l[|l| - 1]) && forall i :: 0 <= i < |l| ==> IsLabelChar(l[i])
  }

  /** [a-zA-Z]{2,} */
  predicate IsTld(t: string)
  {
    |t| >= 2 && forall i :: 0 <= i < |t| ==> IsAlpha(t[i])
  }

  predicate AllLabels(labels: seq<string>)
  {
    forall i :: 0 <= i < |labels| ==> IsLabel(labels[i])
  }

  /** The domain pattern on dot-separated parts: labels, then an alphabetic top-level part. */
  predicate DomainParts(parts: seq<string>)
  {
    parts != [] && IsTld(parts[|parts| - 1]) && AllLabels(parts[..|parts| - 1])
  }

  function ValidateDomain(domain: string): (r: Option<string>)
  {
    if domain == [] then Some("Domain is required")
    else if DomainParts(Split(Chomp(domain), '.')) then Option.None
    else Some("Invalid domain format")
  }

  /** Labels of 1 to 63 characters and a top-level part of two or more letters, joined by dots. */
  ghost predicate DomainText(s: string)
  {
    exists labels, tld :: AllLabels(labels) && IsTld(tld) && s == Join(labels + [tld], ".")
  }

  /**
   * A domain is accepted exactly when, without a final newline, it is a
   * dotted list of labels of at most 63 characters ending in an alphabetic
   * top-level part of two or more letters.
   */
  lemma DomainIff(domain: string)
    ensures ValidateDomain(domain).None? <==> domain != [] && DomainText(Chomp(domain))
  {
    var s := Chomp(domain);
    if ValidateDomain(domain).None? {
      DomainSound(s);
    }
    if domain != [] && DomainText(s) {
      var labels, tld :| AllLabels(labels) && IsTld(tld) && s == Join(labels + [tld], ".");
      DomainComplete(labels, tld);
    }
  }

  lemma DomainSound(s: string)
    requires DomainParts(Split(s, '.'))
    ensures DomainText(s)
  {
    var parts := Split(s, '.');
    JoinSplit(s, '.');
    assert parts == parts[..|parts| - 1] + [parts[|parts| - 1]];
  }

  lemma DomainComplete(labels: seq<string>, tld: string)
    requires AllLabels(labels) && IsTld(tld)
    ensures DomainParts(Split(Join(labels + [tld], "."), '.'))
  {
    var parts := labels + [tld];
    forall p | p in parts ensures '.' !in p {
      var i :| 0 <= i < |parts| && parts[i] == p;
      if i < |labels| {
        assert IsLabel(labels[i]);
      }
    }
    SplitJoin(parts, '.');
    assert parts[..|parts| - 1] == labels;
  }

  // ---------------------------------------------------------------------------
  // validate_network

  function ValidateNetwork(network: string): (r: Option<string>)
  {
    if network == [] then Some("Network is required")
    else if '/' !in network then Some("Network must be in CIDR notation (e.g., 192.168.1.0/24)")
    else if |Split(network, '/')| != 2 then Some("Invalid CIDR format")
    else Option.None
  }

  /** A network is accepted exactly when it has one "/"; neither side is looked at. */
  lemma NetworkIff(network: string)
    ensures ValidateNetwork(network).None? <==> OneSep(network, '/')
  {
    SplitTwoIff(network, '/');
    if OneSep(network, '/') {
      var a, b :| '/' !in a && '/' !in b && network == a + "/" + b;
      assert network[|a|] == '/';
    }
  }

  // ---------------------------------------------------------------------------
  // validate_mac_address

  predicate HexPair(p: string) { |p| == 2 && IsHex(p[0]) && IsHex(p[1]) }

  /** ([0-9A-Fa-f]{2}<sep>){5}[0-9A-Fa-f]{2}: six hex pairs separated by `sep`. */
  predicate PairsSeparated(s: string, sep: char)
  {
    var parts := Split(s, sep);
    |parts| == 6 && forall i :: 0 <= i < 6 ==> HexPair(parts[i])
  }

  predicate BareMac(s: string)
  {
    |s| == 12 && forall i :: 0 <= i < 12 ==> IsHex(s[i])
  }

  predicate MacShape(s: string)
  {
    PairsSeparated(s, ':') || PairsSeparated(s, '-') || BareMac(s)
  }

  /** The three patterns are tried in turn; the first match accepts. */
  function ValidateMacAddress(mac: string): (r: Option<string>)
  {
    if mac == [] then Some("MAC address is required")
    else if MacShape(Chomp(mac)) then Option.None
    else Some("Invalid MAC address format")
  }

  predicate SixPairs(pairs: seq<string>)
  {
    |pairs| == 6 && forall i :: 0 <= i < 6 ==> HexPair(pairs[i])
  }

  /** Six hex pairs joined by ":" or by "-", or twelve hex digits. */
  ghost predicate MacText(s: string)
  {
    (exists pairs, sep :: (sep == ':' || sep == '-') && SixPairs(pairs) && s == Join(pairs, [sep])) || BareMac(s)
  }

  /** A MAC address is accepted exactly when, without a final newline, it has one of the three forms. */
  lemma MacIff(mac: string)
    ensures ValidateMacAddress(mac).None? <==> mac != [] && MacText(Chomp(mac))
  {
    var s := Chomp(mac);
    if PairsSeparated(s, ':') {
      JoinSplit(s, ':');
      assert SixPairs(Split(s, ':'));
    }
    if PairsSeparated(s, '-') {
      JoinSplit(s, '-');
      assert SixPairs(Split(s, '-'));
    }
    if exists pairs, sep :: (sep == ':' || sep == '-') && SixPairs(pairs) && s == Join(pairs, [sep]) {
      var pairs, sep :| (sep == ':' || sep == '-') && SixPairs(pairs) && s == Join(pairs, [sep]);
      MacComplete(pairs, sep);
    }
  }

  lemma MacComplete(pairs: seq<string>, sep: char)
    requires SixPairs(pairs) && (sep == ':' || sep == '-')
    ensures PairsSeparated(Join(pairs, [sep]), sep)
  {
    forall p | p in pairs ensures sep !in p {
      var i :| 0 <= i < 6 && pairs[i] == p;
    }
    SplitJoin(pairs, sep);
  }

  // ---------------------------------------------------------------------------
  // validate_port

  function ValidatePort(port: string): (r: Option<string>)
  {
    if port == [] then Some("Port is required")
    else if '-' in port then
      if |Split(port, '-')| != 2 then Some("Invalid port range format") else Option.None
    else if IsDigitString(port) then
      if 1 <= DigitsValue(port) <= 65535 then Option.None else Some("Port must be between 1 and 65535")
    else if IdentText(Chomp(port)) then Option.None
    else Some("Invalid port format")
  }

  /** What the port validator lets through, described without its branches. */
  ghost predicate PortForm(port: string)
  {
    OneSep(port, '-') ||
    (IsDigitString(port) && 1 <= DigitsValue(port) <= 65535) ||
    ('-' !in port && IdentText(Chomp(port)))
  }

  /**
   * A port is accepted exactly when it is one "-"-separated pair of anything,
   * a number from 1 to 65535, or a letter-led service name; a service name
   * with two dashes is refused as a malformed range.
   */
  lemma PortIff(port: string)
    ensures ValidatePort(port).None? <==> PortForm(port)
  {
    SplitTwoIff(port, '-');
    if OneSep(port, '-') {
      var a, b :| '-' !in a && '-' !in b && port == a + "-" + b;
      assert port[|a|] == '-';
    }
    if IsDigitString(port) {
      assert IsDigit(port[0]) && !IsAlpha(port[0]);
      assert '-' !in port by {
        Ipv4.AllDigitsAvoid(port, '-');
      }
    }
  }

  // ---------------------------------------------------------------------------
  // validate_url

  /** At least one character after the first `k`, and no whitespace among them. */
  predicate NoSpaceFrom(s: string, k: nat)
  {
    |s| > k && forall i :: k <= i < |s| ==> !IsSpace(s[i])
  }

  /** ^https?://[^\s]+$ without the final-newline allowance. */
  predicate UrlShape(s: string)
  {
    (StartsWith(s, "http://") && NoSpaceFrom(s, 7)) || (StartsWith(s, "https://") && NoSpaceFrom(s, 8))
  }

  function ValidateUrl(url: string): (r: Option<string>)
  {
    if url == [] then Some("URL is required")
    else if UrlShape(Chomp(url)) then Option.None
    else Some("Invalid URL format (must start with http:// or https://)")
  }

  /** An accepted URL starts with http:// or https:// and has no whitespace but a possible final newline. */
  lemma UrlSound(url: string)
    requires ValidateUrl(url).None?
    ensures StartsWith(url, "http://") || StartsWith(url, "https://")
    ensures forall i :: 0 <= i < |Chomp(url)| ==> !IsSpace(url[i])
  {
    var s := Chomp(url);
    var k := if StartsWith(s, "http://") && NoSpaceFrom(s, 7) then 7 else 8;
    assert url[..|s|] == s;
    assert url[..k] == s[..k];
    forall i | 0 <= i < |s| ensures !IsSpace(url[i]) {
      assert url[i] == s[i];
      if i < k {
        assert s[i] == s[..k][i];
      }
    }
  }

  // ---------------------------------------------------------------------------
  // validate_member

  /** The validator of the member's group type; interface groups and types without one accept anything. */
  function ValidateMember(t: string, member: string): (r: Option<string>)
  {
    match t
    case "address-group" => ValidateAddress(member)
    case "domain-group" => ValidateDomain(member)
    case "network-group" => ValidateNetwork(member)
    case "mac-group" => ValidateMacAddress(member)
    case "port-group" => ValidatePort(member)
    case "remote-group" => ValidateUrl(member)
    case _ => Option.None
  }

  /** Interface, dynamic and IPv6 groups, and unknown types, take any member at all, even an empty one. */
  lemma MemberUnchecked(t: string, member: string)
    requires t !in ["address-group", "domain-group", "network-group", "mac-group", "port-group", "remote-group"]
    ensures ValidateMember(t, member).None?
  {
  }

  /** Every checked type refuses an empty member. */
  lemma EmptyMemberRefused(t: string)
    requires t in ["address-group", "domain-group", "network-group", "mac-group", "port-group", "remote-group"]
    ensures ValidateMember(t, "").Some?
  {
  }

  // ---------------------------------------------------------------------------
  // parse_firewall_groups

  /** One group as the page lists it. */
  datatype Group = Group(name: string, description: Node, members: seq<Node>, memberCount: nat, groupType: string)

  /**
   * The members under the member key: the keys of a dict, the items of a
   * list, a single string, and nothing for anything else (or a missing key).
   */
  function MembersOf(memberData: Node): (r: seq<Node>)
    ensures memberData.Map? ==>
      |r| == |memberData.entries| && forall i :: 0 <= i < |r| ==> r[i] == Leaf(memberData.entries[i].0)
    ensures memberData.List? ==> r == memberData.items
    ensures memberData.Leaf? ==> r == [memberData]
    ensures memberData.None? ==> r == []
  {
    match memberData
    case Map(m) => seq(|m|, i requires 0 <= i < |m| => Leaf(m[i].0))
    case List(xs) => xs
    case Leaf(_) => [memberData]
    case None => []
  }

  /** group_data.get('description', ''), with a dict replaced by ''. */
  function GroupDescription(data: Entries): Node
  {
    var d := Lookup(data, "description").GetOr(Leaf(""));
    if d.Map? then Leaf("") else d
  }

  function GroupOf(t: string, name: string, data: Entries): (g: Group)
    ensures g.name == name && g.groupType == t && g.memberCount == |g.members|
  {
    var members := MembersOf(Lookup(data, MemberKey(t)).GetOr(Map([])));
    Group(name, GroupDescription(data), members, |members|, t)
  }

  /** The groups of one type's dict, in order; entries whose value is not a dict are skipped. */
  function GroupsOfType(t: string, typeConfig: Entries): (r: seq<Group>)
  {
    if typeConfig == [] then []
    else
      var n := |typeConfig| - 1;
      var (name, data) := typeConfig[n];
      if data.Map? then GroupsOfType(t, typeConfig[..n]) + [GroupOf(t, name, data.entries)]
      else GroupsOfType(t, typeConfig[..n])
  }

  /** The list a type gets: empty when the type is missing or its value is not a dict. */
  function TypeGroups(config: Entries, t: string): seq<Group>
  {
    match Lookup(config, t)
    case Some(Map(typeConfig)) => GroupsOfType(t, typeConfig)
    case _ => []
  }

  /** parse_firewall_groups: one entry per group type, in GROUP_TYPES order. */
  function ParseFirewallGroupsSpec(config: Entries): (r: seq<(string, seq<Group>)>)
  {
    seq(|GroupTypes|, i requires 0 <= i < |GroupTypes| => (GroupTypes[i], TypeGroups(config, GroupTypes[i])))
  }

  /** Every group type has exactly one key, in order, whatever the configuration holds. */
  lemma ParseKeys(config: Entries)
    ensures var r := ParseFirewallGroupsSpec(config);
      |r| == |GroupTypes| && forall i :: 0 <= i < |r| ==> r[i].0 == GroupTypes[i]
  {
  }

  /**
   * A group of a given name is listed under a type exactly when the type's
   * dict has a dict-valued entry of that name; every listed group carries
   * that type and counts its own members.
   */
  lemma {:induction false} GroupsListed(t: string, typeConfig: Entries, name: string)
    ensures (exists g :: g in GroupsOfType(t, typeConfig) && g.name == name) <==>
      exists i :: 0 <= i < |typeConfig| && typeConfig[i].0 == name && typeConfig[i].1.Map?
    ensures forall g :: g in GroupsOfType(t, typeConfig) ==> g.groupType == t && g.memberCount == |g.members|
  {
    if typeConfig != [] {
      var n := |typeConfig| - 1;
      var init := typeConfig[..n];
      GroupsListed(t, init, name);
      assert forall i :: 0 <= i < n ==> init[i] == typeConfig[i];
      if typeConfig[n].1.Map? {
        var g := GroupOf(t, typeConfig[n].0, typeConfig[n].1.entries);
        assert GroupsOfType(t, typeConfig) == GroupsOfType(t, init) + [g];
      }
    }
  }

  method CollectGroups(t: string, typeConfig: Entries) returns (groups: seq<Group>)
    ensures groups == GroupsOfType(t, typeConfig)
  {
    groups := [];
    var i := 0;
    while i < |typeConfig|
      invariant 0 <= i <= |typeConfig|
      invariant groups == GroupsOfType(t, typeConfig[..i])
    {
      assert typeConfig[..i + 1][..i] == typeConfig[..i];
      var (name, data) := typeConfig[i];
      if data.Map? {
        groups := groups + [GroupOf(t, name, data.entries)];
      }
      i := i + 1;
    }
    assert typeConfig[..i] == typeConfig;
  }

  /** parse_firewall_groups as the source runs it: an outer loop over the types. */
  method ParseFirewallGroups(config: Entries) returns (groupsByType: seq<(string, seq<Group>)>)
    ensures groupsByType == ParseFirewallGroupsSpec(config)
  {
    groupsByType := [];
    var i := 0;
    while i < |GroupTypes|
      invariant 0 <= i <= |GroupTypes| && |groupsByType| == i
      invariant forall k :: 0 <= k < i ==> groupsByType[k] == (GroupTypes[k], TypeGroups(config, GroupTypes[k]))
    {
      var t := GroupTypes[i];
      var groups: seq<Group> := [];
      match Lookup(config, t) {
        case Some(Map(typeConfig)) => groups := CollectGroups(t, typeConfig);
        case _ =>
      }
      groupsByType := groupsByType + [(t, groups)];
      i := i + 1;
    }
  }

  /** groups_by_type.get(t, []) on the parsed entries. */
  function GroupsFor(parsed: seq<(string, seq<Group>)>, t: string): seq<Group>
  {
    if parsed == [] then [] else if parsed[0].0 == t then parsed[0].1 else GroupsFor(parsed[1..], t)
  }

  lemma GroupsForParsed(config: Entries, t: string)
    requires t in GroupTypes
    ensures GroupsFor(ParseFirewallGroupsSpec(config), t) == TypeGroups(config, t)
  {
    var r := ParseFirewallGroupsSpec(config);
    var k :| 0 <= k < |GroupTypes| && GroupTypes[k] == t;
    GroupsForAt(r, k);
  }

  lemma {:induction false} GroupsForAt(parsed: seq<(string, seq<Group>)>, k: int)
    requires 0 <= k < |parsed| && forall i :: 0 <= i < k ==> parsed[i].0 != parsed[k].0
    ensures GroupsFor(parsed, parsed[k].0) == parsed[k].1
  {
    if k > 0 {
      GroupsForAt(parsed[1..], k - 1);
    }
  }

  // ---------------------------------------------------------------------------
  // get_all_groups_summary

  /** A group with its type's display name and icon. */
  datatype SummaryRow = SummaryRow(group: Group, typeDisplay: string, icon: string)

  function Labelled(groups: seq<Group>, t: string): (r: seq<SummaryRow>)
    ensures |r| == |groups| && forall i :: 0 <= i < |r| ==> r[i] == SummaryRow(groups[i], DisplayName(t), Icon(t))
  {
    seq(|groups|, i requires 0 <= i < |groups| => SummaryRow(groups[i], DisplayName(t), Icon(t)))
  }

  /** All groups of all types, in type order. */
  function AllRows(parsed: seq<(string, seq<Group>)>): seq<SummaryRow>
  {
    if parsed == [] then [] else Labelled(parsed[0].1, parsed[0].0) + AllRows(parsed[1..])
  }

  function RowKey(r: SummaryRow): (string, string) { (r.group.groupType, r.group.name) }

  /** get_all_groups_summary: every listed group, labelled, sorted by (type, name). */
  function GroupsSummary(config: Entries): (r: seq<SummaryRow>)
    ensures SortedBy(r, RowKey, PairLe)
    ensures multiset(r) == multiset(AllRows(ParseFirewallGroupsSpec(config)))
  {
    PairLeTotal();
    SortBy(AllRows(ParseFirewallGroupsSpec(config)), RowKey, PairLe)
  }

  // ---------------------------------------------------------------------------
  // build_group_set_commands / build_group_delete_commands

  function GroupBase(t: string, name: string): Path { ["firewall", "group", t, name] }

  /** Every member, stripped. */
  function StripAll(members: seq<string>): (r: seq<string>)
    ensures |r| == |members| && forall i :: 0 <= i < |r| ==> r[i] == Strip(members[i])
  {
    seq(|members|, i requires 0 <= i < |members| => Strip(members[i]))
  }

  /** The non-empty values, in order. */
  function NonBlank(xs: seq<string>): seq<string>
  {
    if xs == [] then []
    else
      var n := |xs| - 1;
      if xs[n] != [] then NonBlank(xs[..n]) + [xs[n]] else NonBlank(xs[..n])
  }

  lemma {:induction false} NonBlankIff(xs: seq<string>, x: string)
    ensures x in NonBlank(xs) <==> x != [] && x in xs
  {
    if xs != [] {
      var n := |xs| - 1;
      NonBlankIff(xs[..n], x);
      assert xs == xs[..n] + [xs[n]];
    }
  }

  /** The members that are not blank, stripped, in order. */
  function StrippedMembers(members: seq<string>): seq<string>
  {
    NonBlank(StripAll(members))
  }

  /** A value is among the stripped members exactly when it is non-empty and some member strips to it. */
  lemma StrippedMembersIff(members: seq<string>, x: string)
    ensures x in StrippedMembers(members) <==> x != [] && exists i :: 0 <= i < |members| && Strip(members[i]) == x
  {
    var all := StripAll(members);
    NonBlankIff(all, x);
    if x in all {
      var i :| 0 <= i < |all| && all[i] == x;
    }
  }

  function MemberPaths(base: Path, key: string, xs: seq<string>): (r: seq<Path>)
    ensures |r| == |xs| && forall i :: 0 <= i < |r| ==> r[i] == base + [key, xs[i]]
  {
    seq(|xs|, i requires 0 <= i < |xs| => base + [key, xs[i]])
  }

  /** The description path (when there is one), then one path per non-blank member. */
  function GroupSetCommands(t: string, name: string, members: seq<string>, description: string): seq<Path>
  {
    var base := GroupBase(t, name);
    (if description != [] then [base + ["description", description]] else []) +
      MemberPaths(base, MemberKey(t), StrippedMembers(members))
  }

  method BuildGroupSetCommands(t: string, name: string, members: seq<string>, description: string)
    returns (commands: seq<Path>)
    ensures commands == GroupSetCommands(t, name, members, description)
  {
    var base := GroupBase(t, name);
    commands := [];
    if description != [] {
      commands := commands + [base + ["description", description]];
    }
    commands := AppendMemberPaths(commands, base, MemberKey(t), members);
  }

  /** The member loop of build_group_set_commands: one path per non-blank member, stripped. */
  method AppendMemberPaths(head: seq<Path>, base: Path, key: string, members: seq<string>) returns (commands: seq<Path>)
    ensures commands == head + MemberPaths(base, key, StrippedMembers(members))
  {
    commands := head;
    ghost var stripped := StripAll(members);
    var i := 0;
    while i < |members|
      invariant 0 <= i <= |members|
      invariant commands == head + MemberPaths(base, key, NonBlank(stripped[..i]))
    {
      assert stripped[..i + 1][..i] == stripped[..i];
      var x := Strip(members[i]);
      assert x == stripped[i];
      if x != [] {
        MemberPathsSnoc(base, key, NonBlank(stripped[..i]), x);
        AppendAssoc(head, MemberPaths(base, key, NonBlank(stripped[..i])), [base + [key, x]]);
        commands := commands + [base + [key, x]];
      }
      i := i + 1;
    }
    assert stripped[..i] == stripped;
  }

  lemma MemberPathsSnoc(base: Path, key: string, xs: seq<string>, x: string)
    ensures MemberPaths(base, key, xs + [x]) == MemberPaths(base, key, xs) + [base + [key, x]]
  {
  }

  /** The member values read back from paths: the last token of each path under `key`. */
  function ReadMembers(paths: seq<Path>, key: string): seq<string>
  {
    if paths == [] then []
    else
      var n := |paths| - 1;
      var p := paths[n];
      if |p| == 6 && p[4] == key then ReadMembers(paths[..n], key) + [p[5]] else ReadMembers(paths[..n], key)
  }

  lemma {:induction false} ReadMemberPaths(base: Path, key: string, xs: seq<string>)
    requires |base| == 4
    ensures ReadMembers(MemberPaths(base, key, xs), key) == xs
  {
    if xs != [] {
      var n := |xs| - 1;
      assert MemberPaths(base, key, xs)[..n] == MemberPaths(base, key, xs[..n]);
      ReadMemberPaths(base, key, xs[..n]);
      assert xs == xs[..n] + [xs[n]];
    }
  }

  lemma {:induction false} ReadMembersAppend(a: seq<Path>, b: seq<Path>, key: string)
    ensures ReadMembers(a + b, key) == ReadMembers(a, key) + ReadMembers(b, key)
  {
    if b != [] {
      var n := |b| - 1;
      assert (a + b)[..|a + b| - 1] == a + b[..n];
      ReadMembersAppend(a, b[..n], key);
    } else {
      assert a + b == a;
    }
  }

  /**
   * Reading the member values back from the set commands gives exactly the
   * non-blank members, stripped, in order; the description path is not
   * mistaken for a member, and every command sits under the group's path.
   */
  lemma GroupSetCommandsRoundTrip(t: string, name: string, members: seq<string>, description: string)
    ensures ReadMembers(GroupSetCommands(t, name, members, description), MemberKey(t)) == StrippedMembers(members)
    ensures AllUnder(GroupSetCommands(t, name, members, description), GroupBase(t, name))
    ensures |GroupSetCommands(t, name, members, description)| ==
      (if description != [] then 1 else 0) + |StrippedMembers(members)|
  {
    MemberKeyNotDescription(t);
    var base := GroupBase(t, name);
    var head: seq<Path> := if description != [] then [base + ["description", description]] else [];
    HeadThenMembers(base, head, description, MemberKey(t), StrippedMembers(members));
  }

  lemma MemberKeyNotDescription(t: string)
    ensures MemberKey(t) != "description"
  {
  }

  lemma HeadThenMembers(base: Path, head: seq<Path>, description: string, key: string, xs: seq<string>)
    requires |base| == 4 && key != "description"
    requires head == [] || head == [base + ["description", description]]
    ensures ReadMembers(head + MemberPaths(base, key, xs), key) == xs
    ensures AllUnder(head + MemberPaths(base, key, xs), base)
  {
    var tail := MemberPaths(base, key, xs);
    ReadMembersAppend(head, tail, key);
    ReadMemberPaths(base, key, xs);
    if head != [] {
      assert head[..0] == [];
      assert head[0][4] == "description";
    }
    var cmds := head + tail;
    forall i | 0 <= i < |cmds| ensures HasPrefix(cmds[i], base) {
      if i < |head| {
        assert cmds[i] == base + ["description", description];
      } else {
        assert cmds[i] == tail[i - |head|];
      }
    }
  }

  /** build_group_delete_commands: the group's own path only. */
  function GroupDeleteCommands(t: string, name: string): seq<Path> { [GroupBase(t, name)] }

  // ---------------------------------------------------------------------------
  // The handlers

  const MembersRequired := "At least one member is required"
  const CreateFailed := "Failed to create firewall group"
  const UpdateFailed := "Failed to update firewall group"
  const DeleteFailed := "Failed to delete firewall group"

  function InvalidType(t: string): string { "Invalid group type: " + t }

  /** The member loop's answer: the first member its type's validator refuses, with the reason. */
  function FirstMemberError(t: string, members: seq<string>): (r: Option<string>)
  {
    if members == [] then Option.None
    else
      match ValidateMember(t, members[0])
      case Some(e) => Some("Invalid member \"" + members[0] + "\": " + e)
      case None => FirstMemberError(t, members[1..])
  }

  /** The loop lets the members through exactly when every one of them is valid. */
  lemma {:induction false} FirstMemberErrorNone(t: string, members: seq<string>)
    ensures FirstMemberError(t, members).None? <==> forall i :: 0 <= i < |members| ==> ValidateMember(t, members[i]).None?
  {
    if members != [] {
      FirstMemberErrorNone(t, members[1..]);
      assert forall i :: 1 <= i < |members| ==> members[1..][i - 1] == members[i];
    }
  }

  method CheckMembers(t: string, members: seq<string>) returns (error: Option<string>)
    ensures error == FirstMemberError(t, members)
  {
    var i := 0;
    while i < |members|
      invariant 0 <= i <= |members|
      invariant FirstMemberError(t, members) == FirstMemberError(t, members[i..])
    {
      assert members[i..][1..] == members[i + 1..];
      var e := ValidateMember(t, members[i]);
      if e.Some? {
        return Some("Invalid member \"" + members[i] + "\": " + e.value);
      }
      i := i + 1;
    }
    return Option.None;
  }

  /** any(g['name'] == name for g in groups) */
  predicate NameTaken(groups: seq<Group>, name: string)
  {
    exists g :: g in groups && g.name == name
  }

  /**
   * create_group, given the stripped type, name and description, the members
   * (None when the payload's members are not a list), the configuration read
   * back from the device and the device's response: the batch sent when it
   * succeeds.
   */
  function CreateGroupSpec(t: string, name: string, description: string, members: Option<seq<string>>,
                           config: Entries, resp: Response): Checked<seq<Op>>
  {
    if t !in GroupTypes then Refuse(400, InvalidType(t))
    else if ValidateGroupName(name).Some? then Refuse(400, ValidateGroupName(name).value)
    else if members.None? || members.value == [] then Refuse(400, MembersRequired)
    else if FirstMemberError(t, members.value).Some? then Refuse(400, FirstMemberError(t, members.value).value)
    else if NameTaken(TypeGroups(config, t), name) then Refuse(409, "Group \"" + name + "\" already exists")
    else
      var ops := Sets(GroupSetCommands(t, name, members.value, description));
      var outcome := ConfigureMultiple(ops, "create " + t + " " + name, resp);
      if !outcome.ok then Refuse(500, outcome.message.GetOr(CreateFailed)) else Pass(ops)
  }

  method CreateGroup(rawType: string, rawName: string, rawDescription: string, members: Option<seq<string>>,
                     config: Entries, resp: Response) returns (r: Checked<seq<Op>>)
    ensures r == CreateGroupSpec(Strip(rawType), Strip(rawName), Strip(rawDescription), members, config, resp)
  {
    var t, name, description := Strip(rawType), Strip(rawName), Strip(rawDescription);
    if t !in GroupTypes {
      return Refuse(400, InvalidType(t));
    }
    var nameError := ValidateGroupName(name);
    if nameError.Some? {
      return Refuse(400, nameError.value);
    }
    if members.None? || members.value == [] {
      return Refuse(400, MembersRequired);
    }
    var memberError := CheckMembers(t, members.value);
    if memberError.Some? {
      return Refuse(400, memberError.value);
    }
    var parsed := ParseFirewallGroups(config);
    GroupsForParsed(config, t);
    if NameTaken(GroupsFor(parsed, t), name) {
      return Refuse(409, "Group \"" + name + "\" already exists");
    }
    var commands := BuildGroupSetCommands(t, name, members.value, description);
    var ops := Sets(commands);
    var outcome := ConfigureMultiple(ops, "create " + t + " " + name, resp);
    if !outcome.ok {
      return Refuse(500, outcome.message.GetOr(CreateFailed));
    }
    return Pass(ops);
  }

  /**
   * Create checks, in order, the type, the name, that there are members and
   * that each is valid, and only then looks for a group of that name; what it
   * sends is set operations under the group's path.
   */
  lemma CreateGroupOutcome(t: string, name: string, description: string, members: Option<seq<string>>,
                           config: Entries, resp: Response)
    ensures var r := CreateGroupSpec(t, name, description, members, config, resp);
      (t !in GroupTypes ==> r == Refuse(400, InvalidType(t))) &&
      (t in GroupTypes && ValidateGroupName(name).Some? ==> r == Refuse(400, ValidateGroupName(name).value)) &&
      (t in GroupTypes && ValidateGroupName(name).None? && (members.None? || members.value == []) ==>
        r == Refuse(400, MembersRequired)) &&
      (r.Pass? ==> t in GroupTypes && ValidateGroupName(name).None? && members.Some? && members.value != [] &&
                   (forall i :: 0 <= i < |members.value| ==> ValidateMember(t, members.value[i]).None?) &&
                   !NameTaken(TypeGroups(config, t), name)) &&
      (r.Pass? ==> r.value == Sets(GroupSetCommands(t, name, members.value, description)))
  {
    if members.Some? {
      FirstMemberErrorNone(t, members.value);
    }
  }

  /**
   * The 409 is given exactly when the type's dict already has a dict-valued
   * entry of that name, and only once everything else has been checked.
   */
  lemma CreateConflict(t: string, name: string, description: string, members: seq<string>,
                       typeConfig: Entries, config: Entries, resp: Response)
    requires t in GroupTypes && ValidateGroupName(name).None? && members != []
    requires forall i :: 0 <= i < |members| ==> ValidateMember(t, members[i]).None?
    requires Lookup(config, t) == Some(Map(typeConfig))
    ensures CreateGroupSpec(t, name, description, Some(members), config, resp).Refuse? &&
            CreateGroupSpec(t, name, description, Some(members), config, resp).code == 409 <==>
      exists i :: 0 <= i < |typeConfig| && typeConfig[i].0 == name && typeConfig[i].1.Map?
  {
    FirstMemberErrorNone(t, members);
    GroupsListed(t, typeConfig, name);
  }

  /** A new name is only looked at when it is given and differs from the current one. */
  predicate Renamed(groupName: string, newName: string) { newName != [] && newName != groupName }

  /** The name the group ends up with. */
  function Target(groupName: string, newName: string): string
  {
    if Renamed(groupName, newName) then newName else groupName
  }

  /** The update batch: delete the group's path, then set the new content under the target name. */
  function GroupUpdateOps(t: string, groupName: string, newName: string, members: seq<string>, description: string): seq<Op>
  {
    Deletes(GroupDeleteCommands(t, groupName)) + Sets(GroupSetCommands(t, Target(groupName, newName), members, description))
  }

  function GroupUpdateContext(t: string, groupName: string, newName: string): string
  {
    if Renamed(groupName, newName) then "rename " + t + " " + groupName + " to " + newName
    else "update " + t + " " + groupName
  }

  /**
   * update_group, given the type and name from the URL, the stripped new name
   * and description, the members and the device's response. The current
   * name is neither validated nor looked up.
   */
  function UpdateGroupSpec(t: string, groupName: string, newName: string, description: string,
                           members: Option<seq<string>>, resp: Response): Checked<seq<Op>>
  {
    if t !in GroupTypes then Refuse(400, InvalidType(t))
    else if Renamed(groupName, newName) && ValidateGroupName(newName).Some? then Refuse(400, ValidateGroupName(newName).value)
    else if members.None? || members.value == [] then Refuse(400, MembersRequired)
    else if FirstMemberError(t, members.value).Some? then Refuse(400, FirstMemberError(t, members.value).value)
    else
      var ops := GroupUpdateOps(t, groupName, newName, members.value, description);
      var outcome := ConfigureMultiple(ops, GroupUpdateContext(t, groupName, newName), resp);
      if !outcome.ok then Refuse(500, outcome.message.GetOr(UpdateFailed)) else Pass(ops)
  }

  /** The operation list of update_group, built as the view extends it, and its error context. */
  method GroupUpdateBatch(t: string, groupName: string, newName: string, members: seq<string>, description: string)
    returns (operations: seq<Op>, context: string)
    ensures operations == GroupUpdateOps(t, groupName, newName, members, description)
    ensures context == GroupUpdateContext(t, groupName, newName)
  {
    operations := [];
    var deleteCommands := GroupDeleteCommands(t, groupName);
    operations := operations + Deletes(deleteCommands);
    assert operations == Deletes(deleteCommands);
    var setCommands;
    if Renamed(groupName, newName) {
      setCommands := BuildGroupSetCommands(t, newName, members, description);
      context := "rename " + t + " " + groupName + " to " + newName;
    } else {
      setCommands := BuildGroupSetCommands(t, groupName, members, description);
      context := "update " + t + " " + groupName;
    }
    assert setCommands == GroupSetCommands(t, Target(groupName, newName), members, description);
    operations := operations + Sets(setCommands);
  }

  method UpdateGroup(t: string, groupName: string, rawNewName: string, rawDescription: string,
                     members: Option<seq<string>>, resp: Response) returns (r: Checked<seq<Op>>)
    ensures r == UpdateGroupSpec(t, groupName, Strip(rawNewName), Strip(rawDescription), members, resp)
  {
    if t !in GroupTypes {
      return Refuse(400, InvalidType(t));
    }
    var newName, description := Strip(rawNewName), Strip(rawDescription);
    if Renamed(groupName, newName) {
      var nameError := ValidateGroupName(newName);
      if nameError.Some? {
        return Refuse(400, nameError.value);
      }
    }
    if members.None? || members.value == [] {
      return Refuse(400, MembersRequired);
    }
    var memberError := CheckMembers(t, members.value);
    if memberError.Some? {
      return Refuse(400, memberError.value);
    }
    var operations, context := GroupUpdateBatch(t, groupName, newName, members.value, description);
    var outcome := ConfigureMultiple(operations, context, resp);
    if !outcome.ok {
      return Refuse(500, outcome.message.GetOr(UpdateFailed));
    }
    return Pass(operations);
  }

  /**
   * Update refuses an unknown type first, validates a new name only when it
   * renames, needs members that are all valid, and otherwise sends the
   * delete of the current group followed by the sets of the new content.
   */
  lemma UpdateGroupOutcome(t: string, groupName: string, newName: string, description: string,
                           members: Option<seq<string>>, resp: Response)
    ensures var r := UpdateGroupSpec(t, groupName, newName, description, members, resp);
      (t !in GroupTypes ==> r == Refuse(400, InvalidType(t))) &&
      (t in GroupTypes && !Renamed(groupName, newName) && members.Some? && members.value != [] &&
       (forall i :: 0 <= i < |members.value| ==> ValidateMember(t, members.value[i]).None?) ==>
         (r.Pass? <==> resp.error == [] && resp.status == 200)) &&
      (r.Pass? ==> r.value == GroupUpdateOps(t, groupName, newName, members.value, description) &&
                   r.value[0] == Delete(GroupBase(t, groupName)) && DeletesFirst(r.value))
  {
    if members.Some? {
      FirstMemberErrorNone(t, members.value);
    }
    var r := UpdateGroupSpec(t, groupName, newName, description, members, resp);
    if r.Pass? {
      DeletesThenSetsOrdered(GroupDeleteCommands(t, groupName),
                             GroupSetCommands(t, Target(groupName, newName), members.value, description));
    }
  }

  /**
   * Applied to a store, the update batch replaces the group wholesale: below
   * the current group's path exactly the new set paths remain (none at all
   * after a rename), every new set path is present, and paths elsewhere are
   * kept.
   */
  lemma UpdateGroupEffect(t: string, groupName: string, newName: string, members: seq<string>, description: string,
                          store: Store)
    ensures var after := Run(store, GroupUpdateOps(t, groupName, newName, members, description));
      var sets := GroupSetCommands(t, Target(groupName, newName), members, description);
      (forall q :: HasPrefix(q, GroupBase(t, groupName)) ==> (q in after <==> q in sets)) &&
      (forall q :: q in sets ==> q in after) &&
      (forall q :: !HasPrefix(q, GroupBase(t, groupName)) ==> (q in after <==> q in store || q in sets)) &&
      (Renamed(groupName, newName) ==> forall q :: HasPrefix(q, GroupBase(t, groupName)) ==> q !in after)
  {
    var ds := GroupDeleteCommands(t, groupName);
    var sets := GroupSetCommands(t, Target(groupName, newName), members, description);
    RunAppend(store, Deletes(ds), Sets(sets));
    RunDeletes(store, ds);
    RunSets(Without(store, ds), sets);
    GroupSetCommandsRoundTrip(t, Target(groupName, newName), members, description);
    if Renamed(groupName, newName) {
      forall q | q in sets ensures !HasPrefix(q, GroupBase(t, groupName)) {
        var i :| 0 <= i < |sets| && sets[i] == q;
        assert HasPrefix(q, GroupBase(t, newName));
        assert q[3] == newName;
      }
    }
  }

  /** delete_group, given the type and name from the URL and the device's response. */
  function DeleteGroupSpec(t: string, name: string, resp: Response): Checked<seq<Op>>
  {
    if t !in GroupTypes then Refuse(400, InvalidType(t))
    else
      var ops := Deletes(GroupDeleteCommands(t, name));
      var outcome := ConfigureMultiple(ops, "delete " + t + " " + name, resp);
      if !outcome.ok then Refuse(500, outcome.message.GetOr(DeleteFailed)) else Pass(ops)
  }

  method DeleteGroup(t: string, name: string, resp: Response) returns (r: Checked<seq<Op>>)
    ensures r == DeleteGroupSpec(t, name, resp)
  {
    if t !in GroupTypes {
      return Refuse(400, InvalidType(t));
    }
    var operations := Deletes(GroupDeleteCommands(t, name));
    var outcome := ConfigureMultiple(operations, "delete " + t + " " + name, resp);
    if !outcome.ok {
      return Refuse(500, outcome.message.GetOr(DeleteFailed));
    }
    return Pass(operations);
  }

  /**
   * Delete refuses an unknown type, and otherwise succeeds exactly when the
   * device accepts; its one operation takes away everything below the
   * group's path and nothing else.
   */
  lemma DeleteGroupOutcome(t: string, name: string, resp: Response, store: Store)
    ensures var r := DeleteGroupSpec(t, name, resp);
      (t !in GroupTypes ==> r == Refuse(400, InvalidType(t))) &&
      (r.Pass? <==> t in GroupTypes && resp.error == [] && resp.status == 200) &&
      (r.Pass? ==> r.value == [Delete(GroupBase(t, name))] &&
                   Run(store, r.value) == Without(store, [GroupBase(t, name)]))
  {
    RunDeletes(store, GroupDeleteCommands(t, name));
  }

  // ---------------------------------------------------------------------------
  // Members that are all blank

  /** A lone blank member strips to no member at all. */
  lemma BlankStripsAway()
    ensures StrippedMembers([" "]) == []
  {
    StripEmptyIffBlank(" ");
    assert StripAll([" "]) == [""];
    assert NonBlank([""]) == NonBlank([]);
  }

  lemma BlankCreatePasses(t: string, name: string, config: Entries, resp: Response)
    requires t in GroupTypes && ValidateGroupName(name).None? && ValidateMember(t, " ").None?
    requires !NameTaken(TypeGroups(config, t), name)
    ensures CreateGroupSpec(t, name, "", Some([" "]), config, resp) == Pass([])
  {
    BlankChecksPass(t, name);
  }

  lemma BlankChecksPass(t: string, name: string)
    requires ValidateMember(t, " ").None?
    ensures FirstMemberError(t, [" "]).None?
    ensures GroupSetCommands(t, name, [" "], "") == []
  {
    FirstMemberErrorNone(t, [" "]);
    BlankStripsAway();
    assert MemberPaths(GroupBase(t, name), MemberKey(t), []) == [];
  }

  lemma BlankUpdatePasses(t: string, groupName: string, resp: Response)
    requires t in GroupTypes && ValidateMember(t, " ").None? && resp.error == [] && resp.status == 200
    ensures UpdateGroupSpec(t, groupName, "", "", Some([" "]), resp) == Pass([Delete(GroupBase(t, groupName))])
  {
    BlankChecksPass(t, groupName);
    assert Target(groupName, "") == groupName;
    assert Sets([]) == [];
    assert GroupUpdateOps(t, groupName, "", [" "], "") == Deletes([GroupBase(t, groupName)]) + [];
    assert Deletes([GroupBase(t, groupName)]) == [Delete(GroupBase(t, groupName))];
    assert !Renamed(groupName, "");
    assert FirstMemberError(t, [" "]).None?;
    var ops := GroupUpdateOps(t, groupName, "", [" "], "");
    assert ops == [Delete(GroupBase(t, groupName))];
    assert ConfigureMultiple(ops, GroupUpdateContext(t, groupName, ""), resp).ok;
  }

  /**
   * As written: an interface group (whose members are not validated) given
   * only a blank member and no description is reported as created, yet the
   * batch is empty, so nothing is sent and the device gains no group.
   */
  lemma BlankMembersCreateNothing(resp: Response)
    ensures CreateGroupSpec("interface-group", "lan", "", Some([" "]), [], resp) == Pass([])
  {
    GroupNameIff("lan");
    MemberUnchecked("interface-group", " ");
    BlankCreatePasses("interface-group", "lan", [], resp);
  }

  /**
   * As written: the same members in an update are accepted, and the batch is
   * the delete alone, so the existing group is removed from the device.
   */
  lemma BlankMembersUpdateDeletes(store: Store)
    ensures UpdateGroupSpec("interface-group", "lan", "", "", Some([" "]), Response(200, "")) ==
      Pass([Delete(GroupBase("interface-group", "lan"))])
    ensures forall q :: HasPrefix(q, GroupBase("interface-group", "lan")) ==>
      q !in Run(store, [Delete(GroupBase("interface-group", "lan"))])
  {
    MemberUnchecked("interface-group", " ");
    BlankUpdatePasses("interface-group", "lan", Response(200, ""));
    RunDeletes(store, [GroupBase("interface-group", "lan")]);
  }

  /** The request passes every check, yet none of its members survives stripping. */
  predicate OnlyBlankMembers(t: string, members: Option<seq<string>>)
  {
    members.Some? && members.value != [] && FirstMemberError(t, members.value).None? &&
    StrippedMembers(members.value) == []
  }

  /** Create with the intended rule: members that all strip to nothing count as no members. */
  function CreateGroupFixedSpec(t: string, name: string, description: string, members: Option<seq<string>>,
                                config: Entries, resp: Response): Checked<seq<Op>>
  {
    if t in GroupTypes && ValidateGroupName(name).None? && OnlyBlankMembers(t, members) then Refuse(400, MembersRequired)
    else CreateGroupSpec(t, name, description, members, config, resp)
  }

  /** Update with the same rule. */
  function UpdateGroupFixedSpec(t: string, groupName: string, newName: string, description: string,
                                members: Option<seq<string>>, resp: Response): Checked<seq<Op>>
  {
    if t in GroupTypes && !(Renamed(groupName, newName) && ValidateGroupName(newName).Some?) && OnlyBlankMembers(t, members)
    then Refuse(400, MembersRequired)
    else UpdateGroupSpec(t, groupName, newName, description, members, resp)
  }

  /** The correction changes nothing for a request with at least one non-blank member. */
  lemma FixedAgreesWithNonBlank(t: string, name: string, newName: string, description: string, members: seq<string>,
                                config: Entries, resp: Response)
    requires StrippedMembers(members) != []
    ensures CreateGroupFixedSpec(t, name, description, Some(members), config, resp) ==
            CreateGroupSpec(t, name, description, Some(members), config, resp)
    ensures UpdateGroupFixedSpec(t, name, newName, description, Some(members), resp) ==
            UpdateGroupSpec(t, name, newName, description, Some(members), resp)
  {
  }

  /** A member that is not blank gives a member path. */
  lemma SomeMemberPath(t: string, name: string, members: seq<string>, description: string)
    requires StrippedMembers(members) != []
    ensures var x := StrippedMembers(members)[0];
      x != [] && GroupBase(t, name) + [MemberKey(t), x] in GroupSetCommands(t, name, members, description)
  {
    var x := StrippedMembers(members)[0];
    StrippedMembersIff(members, x);
    var ps := MemberPaths(GroupBase(t, name), MemberKey(t), StrippedMembers(members));
    assert ps[0] == GroupBase(t, name) + [MemberKey(t), x];
  }

  /** With the correction, a created group always has a member on the device once the batch is applied. */
  lemma CreateFixedLeavesMember(t: string, name: string, description: string, members: Option<seq<string>>,
                                config: Entries, resp: Response, store: Store)
    ensures var r := CreateGroupFixedSpec(t, name, description, members, config, resp);
      r.Pass? ==> exists x :: x != [] && GroupBase(t, name) + [MemberKey(t), x] in Run(store, r.value)
  {
    var r := CreateGroupFixedSpec(t, name, description, members, config, resp);
    if r.Pass? {
      CreateGroupOutcome(t, name, description, members, config, resp);
      FirstMemberErrorNone(t, members.value);
      var sets := GroupSetCommands(t, name, members.value, description);
      SomeMemberPath(t, name, members.value, description);
      RunSets(store, sets);
    }
  }

  /** With the correction, an updated group always keeps a member on the device once the batch is applied. */
  lemma UpdateFixedLeavesMember(t: string, groupName: string, newName: string, description: string,
                                members: Option<seq<string>>, resp: Response, store: Store)
    ensures var r := UpdateGroupFixedSpec(t, groupName, newName, description, members, resp);
      var base := GroupBase(t, Target(groupName, newName));
      r.Pass? ==> exists x :: x != [] && base + [MemberKey(t), x] in Run(store, r.value)
  {
    var r := UpdateGroupFixedSpec(t, groupName, newName, description, members, resp);
    if r.Pass? {
      UpdateGroupOutcome(t, groupName, newName, description, members, resp);
      FirstMemberErrorNone(t, members.value);
      SomeMemberPath(t, Target(groupName, newName), members.value, description);
      UpdateGroupEffect(t, groupName, newName, members.value, description, store);
    }
  }
}
