/**
 * The zone helpers of the interface module: reading zone membership out of the
 * "firewall zone" subtree, the zone-name sanitiser, and the builders of the
 * zone definition, membership and binding paths.
 *
 * The configuration read from the device is a parameter (the result of the
 * show-config request); a failed request counts as an empty result.
 */
module Zones {
  import opened Wrappers
  import opened Text
  import opened ConfigTree
  import opened Paths
  import opened Sorting
  import opened IfaceUtils

  // ---------------------------------------------------------------------------
  // Zone names

  /** The characters a sanitised zone name is made of: [A-Z0-9_-]. */
  predicate ZoneChar(c: char)
  {
    IsUpperAlpha(c) || IsDigit(c) || c == '_' || c == '-'
  }

  /** No two dashes in a row. */
  predicate NoDoubleDash(s: string)
  {
    forall i :: 0 <= i < |s| - 1 ==> !(s[i] == '-' && s[i + 1] == '-')
  }

  /** re.sub(r"-{2,}", "-", s): every run of dashes shrinks to a single dash. */
  function CollapseDashes(s: string): (r: string)
    ensures NoDoubleDash(r)
    ensures |r| <= |s|
    ensures s != [] ==> r != [] && r[0] == s[0]
    ensures forall c :: c in r ==> c in s
    ensures NoDoubleDash(s) ==> r == s
  {
    if |s| < 2 then s
    else if s[0] == '-' && s[1] == '-' then CollapseDashes(s[1..])
    else
      var t := CollapseDashes(s[1..]);
      assert NoDoubleDash(s) ==> NoDoubleDash(s[1..]) by {
        if NoDoubleDash(s) {
          forall i | 0 <= i < |s[1..]| - 1 ensures !(s[1..][i] == '-' && s[1..][i + 1] == '-') {
            assert s[1..][i] == s[i + 1] && s[1..][i + 1] == s[i + 2];
          }
        }
      }
      assert forall i :: 1 <= i < |t| ==> ([s[0]] + t)[i] == t[i - 1];
      [s[0]] + t
  }

  /** Trimming dashes from the ends cannot create two dashes in a row. */
  lemma {:induction false} StripDashesKeepsNoDoubleDash(s: string)
    requires NoDoubleDash(s)
    ensures NoDoubleDash(StripChars(s, {'-'}))
    decreases |s|
  {
    if s != [] && s[0] == '-' {
      assert forall i :: 0 <= i < |s| - 1 ==> s[1..][i] == s[i + 1];
      StripDashesKeepsNoDoubleDash(s[1..]);
    } else if s != [] && s[|s| - 1] == '-' {
      assert forall i :: 0 <= i < |s| - 1 ==> s[..|s| - 1][i] == s[i];
      StripDashesKeepsNoDoubleDash(s[..|s| - 1]);
    }
  }

  /** A string that neither starts nor ends with a character of `cs` is its own strip(cs). */
  lemma StripCharsUnchanged(s: string, cs: set<char>)
    requires s != [] && s[0] !in cs && s[|s| - 1] !in cs
    ensures StripChars(s, cs) == s
  {
  }

  /** Upper-casing text made of [A-Za-z0-9_-] gives text made of [A-Z0-9_-]. */
  lemma UpperOfSafe(t: string)
    requires forall c :: c in t ==> SafeChar(c)
    ensures forall c :: c in Upper(t) ==> ZoneChar(c)
  {
    var u := Upper(t);
    forall c | c in u ensures ZoneChar(c) {
      var i :| 0 <= i < |u| && u[i] == c;
      assert t[i] in t;
    }
  }

  /** Upper-casing leaves every dash where it was and adds none. */
  lemma UpperKeepsDashes(t: string)
    ensures NoDoubleDash(t) ==> NoDoubleDash(Upper(t))
    ensures t != [] ==> (Upper(t)[0] == '-' <==> t[0] == '-') && (Upper(t)[|t| - 1] == '-' <==> t[|t| - 1] == '-')
  {
    var u := Upper(t);
    assert forall i :: 0 <= i < |t| ==> (u[i] == '-' <==> t[i] == '-');
  }

  /**
   * sanitise_zone_name: the stripped name with every run of characters outside
   * [A-Za-z0-9_-] turned into "-", runs of dashes collapsed, dashes trimmed from
   * both ends, then upper-cased. The empty name gives "".
   */
  function SanitiseZoneName(name: string): (r: string)
    ensures forall c :: c in r ==> ZoneChar(c)
    ensures NoDoubleDash(r)
    ensures r == [] || (r[0] != '-' && r[|r| - 1] != '-')
    ensures name == [] ==> r == []
  {
    if name == "" then ""
    else
      var safe := ReplaceRuns(Strip(name), false);
      var collapsed := CollapseDashes(safe);
      var trimmed := StripChars(collapsed, {'-'});
      StripDashesKeepsNoDoubleDash(collapsed);
      UpperOfSafe(trimmed);
      UpperKeepsDashes(trimmed);
      Upper(trimmed)
  }

  /** A non-empty name sanitising cannot change: zone characters, no double dash, no dash at either end. */
  predicate Clean(r: string)
  {
    r != [] && (forall i :: 0 <= i < |r| ==> ZoneChar(r[i])) && NoDoubleDash(r) && r[0] != '-' && r[|r| - 1] != '-'
  }

  /** Two clean names joined by one dash make a clean name. */
  lemma CleanJoin(a: string, b: string)
    requires Clean(a) && Clean(b)
    ensures Clean(a + "-" + b)
  {
    var j := a + "-" + b;
    forall i | 0 <= i < |j| - 1 ensures !(j[i] == '-' && j[i + 1] == '-') {
      if i < |a| - 1 {
        assert j[i] == a[i] && j[i + 1] == a[i + 1];
      } else if i == |a| - 1 {
        assert j[i] == a[|a| - 1];
      } else if i == |a| {
        assert j[i + 1] == b[0];
      } else {
        assert j[i] == b[i - |a| - 1] && j[i + 1] == b[i - |a|];
      }
    }
  }

  /** Zone characters are kept by normalise_shared_name's filter and are not whitespace. */
  lemma ZoneTextIsSafe(r: string)
    requires forall c :: c in r ==> ZoneChar(c)
    ensures forall i :: 0 <= i < |r| ==> SafeChar(r[i]) && !IsSpace(r[i])
  {
    forall i | 0 <= i < |r| ensures SafeChar(r[i]) && !IsSpace(r[i]) {
      assert r[i] in r;
    }
  }

  /** Zone characters are already upper case. */
  lemma UpperFixesZoneText(r: string)
    requires forall c :: c in r ==> ZoneChar(c)
    ensures Upper(r) == r
  {
    forall i | 0 <= i < |r| ensures UpperChar(r[i]) == r[i] {
      assert r[i] in r;
    }
  }

  /**
   * A clean name (zone characters only, no double dash, no dash at either end)
   * is its own sanitisation.
   */
  lemma SanitiseFixesClean(r: string)
    requires Clean(r)
    ensures SanitiseZoneName(r) == r
  {
    ZoneTextIsSafe(r);
    StripUnchanged(r);
    assert ReplaceRuns(r, false) == r;
    assert CollapseDashes(r) == r;
    StripCharsUnchanged(r, {'-'});
    UpperFixesZoneText(r);
  }

  /** Sanitising a sanitised name changes nothing. */
  lemma SanitiseZoneNameIdempotent(name: string)
    ensures SanitiseZoneName(SanitiseZoneName(name)) == SanitiseZoneName(name)
  {
    var r := SanitiseZoneName(name);
    if r != [] {
      assert Clean(r);
      SanitiseFixesClean(r);
    }
  }

  // ---------------------------------------------------------------------------
  // Firewall and path names

  /** zone_pair_firewall_name: the sanitised source and destination joined by "-". */
  function ZonePairFirewallName(source: string, destination: string): string
  {
    SanitiseZoneName(source) + "-" + SanitiseZoneName(destination)
  }

  /** A firewall name is made of zone-name characters, around exactly one more dash. */
  lemma PairNameChars(source: string, destination: string)
    ensures var r := ZonePairFirewallName(source, destination);
      (forall c :: c in r ==> ZoneChar(c)) &&
      |r| == |SanitiseZoneName(source)| + 1 + |SanitiseZoneName(destination)|
  {
    var r := ZonePairFirewallName(source, destination);
    forall c | c in r ensures ZoneChar(c) {
      assert c in SanitiseZoneName(source) || c == '-' || c in SanitiseZoneName(destination);
    }
  }

  /** The name only depends on the sanitised zone names. */
  lemma PairNameOfSanitised(source: string, destination: string)
    ensures ZonePairFirewallName(SanitiseZoneName(source), SanitiseZoneName(destination))
         == ZonePairFirewallName(source, destination)
  {
    SanitiseZoneNameIdempotent(source);
    SanitiseZoneNameIdempotent(destination);
  }

  /**
   * Different zone pairs can share a firewall name: for clean names a, b and c,
   * traffic from zone "a-b" to zone c and from zone a to zone "b-c" both get
   * the name "a-b-c" (so "A-B" to "C" and "A" to "B-C" collide).
   */
  lemma PairNamesCollide(a: string, b: string, c: string)
    requires Clean(a) && Clean(b) && Clean(c)
    ensures SanitiseZoneName(a + "-" + b) != SanitiseZoneName(a)
    ensures ZonePairFirewallName(a + "-" + b, c) == ZonePairFirewallName(a, b + "-" + c)
  {
    CleanJoin(a, b);
    CleanJoin(b, c);
    SanitiseFixesClean(a);
    SanitiseFixesClean(a + "-" + b);
    PairNameOfClean(a + "-" + b, c);
    PairNameOfClean(a, b + "-" + c);
    JoinAssoc(a, b, c);
  }

  lemma JoinAssoc(a: string, b: string, c: string)
    ensures (a + "-" + b) + "-" + c == a + "-" + (b + "-" + c)
  {
  }

  lemma PairNameOfClean(x: string, y: string)
    requires Clean(x) && Clean(y)
    ensures ZonePairFirewallName(x, y) == x + "-" + y
  {
    SanitiseFixesClean(x);
    SanitiseFixesClean(y);
  }

  function ZoneRoot(zone: string): Path
  {
    ["firewall", "zone", zone]
  }

  /**
   * build_zone_definition_commands: nothing for a name that sanitises to "" or
   * that the zone configuration already holds; otherwise the zone root first,
   * "local-zone" only for LOCAL, and a drop default action last.
   */
  function BuildZoneDefinitionCommands(zone: string, existing: Entries): (r: seq<Path>)
    ensures r == [] <==> SanitiseZoneName(zone) == [] || SanitiseZoneName(zone) in Keys(existing)
    ensures r != [] ==> r[0] == ZoneRoot(SanitiseZoneName(zone))
    ensures r != [] ==> r[|r| - 1] == Under(ZoneRoot(SanitiseZoneName(zone)), ["default-action", "drop"])
    ensures AllUnder(r, ZoneRoot(SanitiseZoneName(zone)))
    ensures Under(ZoneRoot(SanitiseZoneName(zone)), ["local-zone"]) in r <==> r != [] && SanitiseZoneName(zone) == "LOCAL"
  {
    var name := SanitiseZoneName(zone);
    if name == "" || name in Keys(existing) then []
    else ZoneDefinition(name)
  }

  /** The definition of a new zone: its root, "local-zone" only for LOCAL, and a drop default action. */
  function ZoneDefinition(name: string): (r: seq<Path>)
    ensures r != [] && r[0] == ZoneRoot(name)
    ensures r[|r| - 1] == Under(ZoneRoot(name), ["default-action", "drop"])
    ensures AllUnder(r, ZoneRoot(name))
    ensures Under(ZoneRoot(name), ["local-zone"]) in r <==> name == "LOCAL"
  {
    var root := ZoneRoot(name);
    var local, drop := Under(root, ["local-zone"]), Under(root, ["default-action", "drop"]);
    var r := [root] + (if name == "LOCAL" then [local] else []) + [drop];
    assert |root| == 3 && |local| == 4 && |drop| == 5;
    assert forall c :: c in r <==> c == root || (name == "LOCAL" && c == local) || c == drop;
    r
  }

  /** normalise_iface_name(name) or name: the "@" suffix dropped, unless nothing is left. */
  function IfaceKey(iface: string): (r: string)
    ensures r == [] <==> iface == []
    ensures '@' in r ==> r == iface && iface[0] == '@'
  {
    var n := NormaliseIfaceName(Some(iface)).value;
    if n != "" then n else iface
  }

  /** The key of a key is the key. */
  lemma IfaceKeyIdempotent(iface: string)
    ensures IfaceKey(IfaceKey(iface)) == IfaceKey(iface)
  {
    if iface != "" && BeforeAt(iface) != "" {
      var k := BeforeAt(iface);
      assert IfaceKey(iface) == k;
      assert BeforeAt(k) == k;
    }
  }

  /** The membership path of an interface in a zone. */
  function MembershipPath(zone: string, iface: string): Path
  {
    Under(ZoneRoot(SanitiseZoneName(zone)), ["member", "interface", IfaceKey(iface)])
  }

  /**
   * build_zone_membership_commands: the one membership path of the interface
   * under the sanitised zone, or nothing when either name is empty.
   */
  function BuildZoneMembershipCommands(zone: string, iface: string): (r: seq<Path>)
    ensures r == [] <==> SanitiseZoneName(zone) == [] || iface == []
    ensures r != [] ==> r == [MembershipPath(zone, iface)]
  {
    if SanitiseZoneName(zone) == "" || IfaceKey(iface) == "" then [] else [MembershipPath(zone, iface)]
  }

  /** build_zone_membership_delete: exactly the path the add builder sets. */
  function BuildZoneMembershipDelete(zone: string, iface: string): (r: seq<Path>)
    ensures r == BuildZoneMembershipCommands(zone, iface)
  {
    if SanitiseZoneName(zone) == "" || IfaceKey(iface) == "" then [] else [MembershipPath(zone, iface)]
  }

  /**
   * build_zone_binding_commands: the firewall bound to traffic entering the
   * destination zone from the source zone, or nothing when a name is empty.
   */
  function BuildZoneBindingCommands(source: string, destination: string, firewallName: string): (r: seq<Path>)
    ensures r == [] <==> SanitiseZoneName(source) == [] || SanitiseZoneName(destination) == [] || firewallName == []
    ensures r != [] ==> |r| == 1 && HasPrefix(r[0], ZoneRoot(SanitiseZoneName(destination)))
    ensures r != [] ==> r[0][3..] == ["from", SanitiseZoneName(source), "firewall", "name", firewallName]
  {
    var src := SanitiseZoneName(source);
    var dst := SanitiseZoneName(destination);
    if src == "" || dst == "" || firewallName == "" then []
    else [Under(ZoneRoot(dst), ["from", src, "firewall", "name", firewallName])]
  }

  // ---------------------------------------------------------------------------
  // Reading the zone configuration

  /**
   * load_zone_config after the request: the merged result, or the merged
   * "zone" container when the result wraps the zones in one.
   */
  function ZoneConfigOf(result: Node): (r: Entries)
    ensures var merged := MappingOf(result);
      r == if "zone" in Keys(merged) && (Get(merged, "zone").Map? || Get(merged, "zone").List?)
           then MappingOf(Get(merged, "zone")) else merged
  {
    var merged := MappingOf(result);
    var inner := Get(merged, "zone");
    if "zone" in Keys(merged) && (inner.Map? || inner.List?) then MappingOf(inner) else merged
  }

  /** str(key) of every key of a dict. */
  function KeySet(m: Entries): set<string>
  {
    set i | 0 <= i < |m| :: m[i].0
  }

  /** The names one entry of an "interface" list contributes: a dict's keys, or a truthy scalar. */
  function EntryNames(entry: Node): set<string>
  {
    if entry.Map? then KeySet(entry.entries)
    else if Truthy(entry) then {Str(entry)}
    else {}
  }

  /** The names of the entries of an "interface" list from position i on. */
  function EntryNamesFrom(xs: seq<Node>, i: nat): set<string>
    decreases |xs| - i
  {
    if i >= |xs| then {} else EntryNames(xs[i]) + EntryNamesFrom(xs, i + 1)
  }

  /**
   * _interface_members: a dict gives the names under its "interface" key (a
   * dict's keys, a list's entries or one string), a list the members of each
   * entry, and a bare string itself.
   */
  function InterfaceMembers(block: Node): set<string>
    decreases block, 1
  {
    match block
    case Map(m) =>
      var ib := Get(m, "interface");
      if ib.Map? then KeySet(ib.entries)
      else if ib.List? then EntryNamesFrom(ib.items, 0)
      else if ib.Leaf? then {ib.text}
      else {}
    case List(_) => MembersFrom(block, 0)
    case Leaf(s) => {s}
    case None => {}
  }

  /** The members of the entries of a list block from position i on. */
  function MembersFrom(block: Node, i: nat): set<string>
    requires block.List?
    decreases block, 0, |block.items| - i
  {
    if i >= |block.items| then {} else InterfaceMembers(block.items[i]) + MembersFrom(block, i + 1)
  }

  /** The one-entry dict {name: {}} of each name: the dict encoding of a member list. */
  function DictEncoding(names: seq<string>): Entries
  {
    seq(|names|, i requires 0 <= i < |names| => (names[i], Map([])))
  }

  /** The list encoding of a member list: one string per name. */
  function ListEncoding(names: seq<string>): seq<Node>
  {
    seq(|names|, i requires 0 <= i < |names| => Leaf(names[i]))
  }

  lemma {:induction false} EntryNamesOfList(names: seq<string>, i: nat)
    requires forall k :: 0 <= k < |names| ==> names[k] != []
    ensures EntryNamesFrom(ListEncoding(names), i) == set k | i <= k < |names| :: names[k]
    decreases |names| - i
  {
    if i < |names| {
      EntryNamesOfList(names, i + 1);
    }
  }

  lemma {:induction false} MembersOfList(names: seq<string>, i: nat)
    ensures MembersFrom(List(ListEncoding(names)), i) == set k | i <= k < |names| :: names[k]
    decreases |names| - i
  {
    if i < |names| {
      MembersOfList(names, i + 1);
    }
  }

  /**
   * The member encodings the device may return agree: the names as the keys of
   * an "interface" dict, as a list of strings under "interface", or as a bare
   * list of strings give the same member set, the set of the names.
   */
  lemma MemberEncodingsAgree(names: seq<string>)
    requires forall k :: 0 <= k < |names| ==> names[k] != []
    ensures InterfaceMembers(Map([("interface", Map(DictEncoding(names)))])) == Elems(names)
    ensures InterfaceMembers(Map([("interface", List(ListEncoding(names)))])) == Elems(names)
    ensures InterfaceMembers(List(ListEncoding(names))) == Elems(names)
  {
    EntryNamesOfList(names, 0);
    MembersOfList(names, 0);
    assert (set k | 0 <= k < |names| :: names[k]) == Elems(names) by {
      forall x | x in Elems(names) ensures x in set k | 0 <= k < |names| :: names[k] {
        var k :| 0 <= k < |names| && names[k] == x;
      }
    }
    var d := DictEncoding(names);
    assert KeySet(d) == Elems(names) by {
      forall x | x in Elems(names) ensures x in KeySet(d) {
        var k :| 0 <= k < |names| && names[k] == x;
        assert d[k].0 == x;
      }
    }
  }

  /** The membership of one zone: its members with their "@" suffix dropped. */
  function ZoneMembers(cfg: Entries): set<string>
  {
    set x | x in InterfaceMembers(Get(cfg, "member")) :: IfaceKey(x)
  }

  /** map_zone_members as an ordered list: one entry per zone whose configuration is a dict. */
  function ZoneMembership(config: Entries): (r: seq<(string, set<string>)>)
    ensures |r| <= |config|
  {
    if config == [] then []
    else
      var init := ZoneMembership(config[..|config| - 1]);
      var last := config[|config| - 1];
      if last.1.Map? then init + [(last.0, ZoneMembers(last.1.entries))] else init
  }

  /** The membership dict built from the ordered list, later zones overwriting earlier ones. */
  function MembershipMap(ms: seq<(string, set<string>)>): map<string, set<string>>
  {
    if ms == [] then map[] else MembershipMap(ms[..|ms| - 1])[ms[|ms| - 1].0 := ms[|ms| - 1].1]
  }

  /** map_zone_members as the source runs it: one assignment per dict zone. */
  method MapZoneMembers(config: Entries) returns (membership: map<string, set<string>>)
    ensures membership == MembershipMap(ZoneMembership(config))
    ensures forall z :: z in membership <==> exists i :: 0 <= i < |config| && config[i].0 == z && config[i].1.Map?
  {
    membership := map[];
    var i := 0;
    while i < |config|
      invariant 0 <= i <= |config|
      invariant membership == MembershipMap(ZoneMembership(config[..i]))
      invariant forall z :: z in membership <==> exists k :: 0 <= k < i && config[k].0 == z && config[k].1.Map?
    {
      assert config[..i + 1][..i] == config[..i];
      var entry := config[i];
      if entry.1.Map? {
        membership := membership[entry.0 := ZoneMembers(entry.1.entries)];
      }
      i := i + 1;
    }
    assert config[..|config|] == config;
  }

  /** The name of the first zone of the list whose members include `key`. */
  function ZoneHolding(key: string, ms: seq<(string, set<string>)>): (r: Option<string>)
    ensures r.Some? <==> exists i :: 0 <= i < |ms| && key in ms[i].1
    ensures r.Some? ==> exists i :: (0 <= i < |ms| && ms[i].0 == r.value && key in ms[i].1 &&
      forall j :: 0 <= j < i ==> key !in ms[j].1)
  {
    if ms == [] then Option.None
    else if key in ms[0].1 then Some(ms[0].0)
    else
      var rest := ZoneHolding(key, ms[1..]);
      assert forall j :: 1 <= j < |ms| ==> ms[j] == ms[1..][j - 1];
      if rest.Some? then
        ghost var k :| 0 <= k < |ms[1..]| && ms[1..][k].0 == rest.value && key in ms[1..][k].1 &&
          forall j :: 0 <= j < k ==> key !in ms[1..][j].1;
        assert ms[k + 1].0 == rest.value && key in ms[k + 1].1;
        rest
      else rest
  }

  /**
   * find_zone_for_interface: the first zone, in configuration order, whose
   * members include the interface's key; None when no zone has it.
   */
  method FindZoneForInterface(iface: string, config: Entries) returns (r: Option<string>)
    ensures r == ZoneHolding(IfaceKey(iface), ZoneMembership(config))
  {
    var key := IfaceKey(iface);
    var ms := ZoneMembership(config);
    var i := 0;
    while i < |ms|
      invariant 0 <= i <= |ms|
      invariant ZoneHolding(key, ms[i..]) == ZoneHolding(key, ms)
    {
      if key in ms[i].1 {
        return Some(ms[i].0);
      }
      assert ms[i..][1..] == ms[i + 1..];
      i := i + 1;
    }
    return Option.None;
  }

  /** list_zones: the zone names, ordered case-insensitively (a stable sort on the lower-cased name). */
  function ListZones(config: Entries): (r: seq<string>)
    ensures multiset(r) == multiset(Keys(config))
    ensures forall i, j :: 0 <= i < j < |r| ==> StrLe(Lower(r[i]), Lower(r[j]))
    ensures forall k :: Tied(r, Lower, StrLe, k) == Tied(Keys(config), Lower, StrLe, k)
  {
    StrLeTotal();
    var r := SortBy(Keys(config), Lower, StrLe);
    assert forall k :: Tied(r, Lower, StrLe, k) == Tied(Keys(config), Lower, StrLe, k) by {
      forall k ensures Tied(r, Lower, StrLe, k) == Tied(Keys(config), Lower, StrLe, k) {
        SortByStable(Keys(config), Lower, StrLe, k);
      }
    }
    r
  }
}
