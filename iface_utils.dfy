/**
 * The interface helpers shared by the interface, NAT, zone and DHCP handlers:
 * interface-name and shared-name normalisation, leaf and address extraction
 * from configuration nodes, the configured-interface and flattened-interface
 * views of the ethernet subtree, and the integer-keyed rule map.
 *
 * The app copy and the legacy copy of these helpers behave the same; the
 * CIDR validators live in the Ipv4 module.
 */
module IfaceUtils {
  import opened Wrappers
  import opened Text
  import opened ConfigTree
  import opened Numbers
  import opened Paths

  // ---------------------------------------------------------------------------
  // Names

  /** name.split("@")[0]: the text before the first "@". */
  function BeforeAt(s: string): (r: string)
    ensures '@' !in r && StartsWith(s, r)
    ensures '@' in s ==> |r| < |s| && s[|r|] == '@'
    ensures '@' !in s ==> r == s
  {
    Split(s, '@')[0]
  }

  /** normalise_iface_name: the parent suffix after "@" dropped; None and "" are returned as they are. */
  function NormaliseIfaceName(name: Option<string>): (r: Option<string>)
    ensures name.None? <==> r.None?
    ensures r.Some? ==> '@' !in r.value && StartsWith(name.value, r.value)
    ensures r.Some? && '@' in name.value ==> |r.value| < |name.value| && name.value[|r.value|] == '@'
  {
    match name
    case None => Option.None
    case Some(s) => if s == "" then name else Some(BeforeAt(s))
  }

  /** Normalising twice is normalising once. */
  lemma NormaliseIfaceNameIdempotent(name: Option<string>)
    ensures NormaliseIfaceName(NormaliseIfaceName(name)) == NormaliseIfaceName(name)
  {
    var r := NormaliseIfaceName(name);
    if r.Some? && r.value != "" {
      assert BeforeAt(r.value) == r.value;
    }
  }

  /** The characters normalise_shared_name keeps: [a-zA-Z0-9_-]. */
  predicate SafeChar(c: char)
  {
    IsAlnum(c) || c == '_' || c == '-'
  }

  /**
   * re.sub(r'[^a-zA-Z0-9_-]+', '-', s): each maximal run of other characters
   * becomes one "-". `inRun` says the previous character already opened a run.
   */
  function ReplaceRuns(s: string, inRun: bool): (r: string)
    ensures forall c :: c in r ==> SafeChar(c)
    ensures |r| <= |s|
    ensures s != [] && !inRun ==> r != []
    ensures (forall i :: 0 <= i < |s| ==> SafeChar(s[i])) ==> r == s
  {
    if s == [] then []
    else if SafeChar(s[0]) then [s[0]] + ReplaceRuns(s[1..], false)
    else if inRun then ReplaceRuns(s[1..], true)
    else "-" + ReplaceRuns(s[1..], true)
  }

  /**
   * normalise_shared_name: the stripped name, or the fallback when the name is
   * blank, with every run of unsafe characters replaced by "-"; the fallback
   * when that leaves nothing.
   */
  function NormaliseSharedName(name: Option<string>, fallback: string): (r: string)
    ensures forall c :: c in r ==> SafeChar(c)
    ensures Strip(name.GetOr("")) != "" ==> r == ReplaceRuns(Strip(name.GetOr("")), false) && r != []
    ensures Strip(name.GetOr("")) == "" ==> r == ReplaceRuns(fallback, false)
    ensures r == [] <==> Strip(name.GetOr("")) == [] && fallback == []
  {
    var stripped := Strip(name.GetOr(""));
    var candidate := if stripped != "" then stripped else fallback;
    var safe := ReplaceRuns(candidate, false);
    if safe != "" then safe else fallback
  }

  /** A normalised shared name is its own normalisation. */
  lemma NormaliseSharedNameIdempotent(name: Option<string>, fallback: string)
    requires NormaliseSharedName(name, fallback) != []
    ensures NormaliseSharedName(Some(NormaliseSharedName(name, fallback)), fallback) == NormaliseSharedName(name, fallback)
  {
    var r := NormaliseSharedName(name, fallback);
    assert !IsSpace(r[0]) && !IsSpace(r[|r| - 1]) by {
      assert SafeChar(r[0]) && SafeChar(r[|r| - 1]);
    }
    StripUnchanged(r);
    assert forall i :: 0 <= i < |r| ==> SafeChar(r[i]);
  }

  // ---------------------------------------------------------------------------
  // Leaf and address values

  /**
   * extract_leaf_value: null gives None, a scalar its text, a list its first
   * item with a value, a one-key dict its nested value or else the key, and
   * any other dict None.
   */
  function ExtractLeafValue(n: Node): (r: Option<string>)
    decreases n, 1
    ensures n.None? ==> r.None?
    ensures n.Leaf? ==> r == Some(n.text)
    ensures n.Map? && |n.entries| != 1 ==> r.None?
    ensures n.Map? && |n.entries| == 1 ==> r.Some?
  {
    match n
    case None => Option.None
    case Leaf(s) => Some(s)
    case List(xs) => FirstLeafFrom(n, 0)
    case Map(m) =>
      if |m| != 1 then Option.None
      else
        var nested := ExtractLeafValue(m[0].1);
        if nested.Some? then nested else Some(m[0].0)
  }

  /** The loop of extract_leaf_value over a list, from position i on. */
  function FirstLeafFrom(n: Node, i: nat): (r: Option<string>)
    requires n.List?
    decreases n, 0, |n.items| - i
  {
    if i >= |n.items| then Option.None
    else
      var v := ExtractLeafValue(n.items[i]);
      if v.Some? then v else FirstLeafFrom(n, i + 1)
  }

  /**
   * For a list, the value is that of the first item that has one: no item
   * before it has a value. With no such item the value is None.
   */
  lemma {:induction false} FirstLeafFromSpec(n: Node, i: nat)
    requires n.List?
    decreases |n.items| - i
    ensures FirstLeafFrom(n, i).None? <==> forall j :: i <= j < |n.items| ==> ExtractLeafValue(n.items[j]).None?
    ensures FirstLeafFrom(n, i).Some? ==>
      exists j :: i <= j < |n.items| && ExtractLeafValue(n.items[j]) == FirstLeafFrom(n, i) &&
        forall k :: i <= k < j ==> ExtractLeafValue(n.items[k]).None?
  {
    if i < |n.items| {
      FirstLeafFromSpec(n, i + 1);
      if ExtractLeafValue(n.items[i]).None? && FirstLeafFrom(n, i + 1).Some? {
        var j :| i + 1 <= j < |n.items| && ExtractLeafValue(n.items[j]) == FirstLeafFrom(n, i + 1) &&
          forall k :: i + 1 <= k < j ==> ExtractLeafValue(n.items[k]).None?;
        assert forall k :: i <= k < j ==> ExtractLeafValue(n.items[k]).None?;
      }
    }
  }

  /**
   * extract_address_value: a falsy value gives None, a string its stripped
   * text, a list the value of its first item, and a dict its first key, or
   * that key's first inner key when the key holds a non-empty dict.
   */
  function ExtractAddressValue(n: Node): (r: Option<string>)
    decreases n
    ensures !Truthy(n) ==> r.None?
    ensures n.Leaf? && Truthy(n) ==> r == Some(Strip(n.text))
    ensures n.List? && Truthy(n) ==> r == ExtractAddressValue(n.items[0])
    ensures n.Map? && Truthy(n) ==> r.Some?
    ensures n.Map? && Truthy(n) && !(n.entries[0].1.Map? && n.entries[0].1.entries != []) ==> r == Some(n.entries[0].0)
    ensures n.Map? && Truthy(n) && n.entries[0].1.Map? && n.entries[0].1.entries != [] ==> r == Some(n.entries[0].1.entries[0].0)
  {
    if !Truthy(n) then Option.None
    else
      match n
      case Leaf(s) => Some(Strip(s))
      case List(xs) => ExtractAddressValue(xs[0])
      case Map(m) =>
        var value := m[0].1;
        if !Truthy(value) then Some(m[0].0)
        else if value.Map? then Some(value.entries[0].0)
        else Some(m[0].0)
      case None => Option.None
  }

  /** A string address is stripped, so extracting it again gives it back. */
  lemma AddressStringStable(s: string)
    requires Strip(s) != []
    ensures ExtractAddressValue(Leaf(ExtractAddressValue(Leaf(s)).value)) == ExtractAddressValue(Leaf(s))
  {
    StripIdempotent(s);
  }

  // ---------------------------------------------------------------------------
  // The ethernet subtree

  /** config_result.get("ethernet", {}) when both are dicts; None makes the helpers return empty. */
  function EthernetOf(config: Node): (r: Option<Entries>)
    ensures !config.Map? ==> r.None?
    ensures config.Map? && "ethernet" !in Keys(config.entries) ==> r == Some([])
  {
    if !config.Map? then Option.None
    else
      match Lookup(config.entries, "ethernet")
      case None => Some([])
      case Some(v) => if v.Map? then Some(v.entries) else Option.None
  }

  /** iface_cfg.get("vif", {}) when both are dicts, else no VLANs. */
  function VifEntries(ifaceCfg: Node): Entries
  {
    if !ifaceCfg.Map? then []
    else
      match Lookup(ifaceCfg.entries, "vif")
      case Some(Map(v)) => v
      case _ => []
  }

  /** The name of a VLAN sub-interface: parent "." vlan id. */
  function VlanName(parent: string, vlan: string): string
  {
    parent + "." + vlan
  }

  /** The names one ethernet entry contributes: its own and one per VLAN. */
  function EntryNames(e: (string, Node)): (r: set<string>)
    ensures e.0 in r
    ensures forall v :: v in Keys(VifEntries(e.1)) ==> VlanName(e.0, v) in r
  {
    {e.0} + set v | v in Keys(VifEntries(e.1)) :: VlanName(e.0, v)
  }

  /** The names contributed by the ethernet entries, in order. */
  function ConfiguredNames(eth: Entries): (r: set<string>)
  {
    if eth == [] then {} else ConfiguredNames(eth[..|eth| - 1]) + EntryNames(eth[|eth| - 1])
  }

  /** extract_configured_interfaces: every ethernet name and every "parent.vlan". */
  function ConfiguredInterfaces(config: Node): set<string>
  {
    match EthernetOf(config)
    case None => {}
    case Some(eth) => ConfiguredNames(eth)
  }

  /** A name is configured exactly when some ethernet entry contributes it. */
  lemma {:induction false} ConfiguredNamesSpec(eth: Entries, name: string)
    ensures name in ConfiguredNames(eth) <==> exists i :: 0 <= i < |eth| && name in EntryNames(eth[i])
  {
    if eth != [] {
      var init := eth[..|eth| - 1];
      ConfiguredNamesSpec(init, name);
      if name in ConfiguredNames(init) {
        var i :| 0 <= i < |init| && name in EntryNames(init[i]);
        assert eth[i] == init[i];
      }
      if exists i :: 0 <= i < |eth| && name in EntryNames(eth[i]) {
        var i :| 0 <= i < |eth| && name in EntryNames(eth[i]);
        if i < |init| {
          assert init[i] == eth[i];
        }
      }
    }
  }

  /** extract_configured_interfaces as the source runs it: one add per name, one per VLAN id. */
  method ExtractConfiguredInterfaces(config: Node) returns (configured: set<string>)
    ensures configured == ConfiguredInterfaces(config)
  {
    configured := {};
    var eth := EthernetOf(config);
    if eth.None? {
      return;
    }
    var entries := eth.value;
    var i := 0;
    while i < |entries|
      invariant 0 <= i <= |entries|
      invariant configured == ConfiguredNames(entries[..i])
    {
      assert entries[..i + 1][..i] == entries[..i];
      var name := entries[i].0;
      var before := configured;
      configured := configured + {name};
      var vlans := Keys(VifEntries(entries[i].1));
      var j := 0;
      while j < |vlans|
        invariant 0 <= j <= |vlans|
        invariant configured == before + {name} + set v | v in vlans[..j] :: VlanName(name, v)
      {
        assert forall v :: v in vlans[..j + 1] <==> v in vlans[..j] || v == vlans[j];
        configured := configured + {VlanName(name, vlans[j])};
        j := j + 1;
      }
      assert vlans[..j] == vlans;
      i := i + 1;
    }
    assert entries[..i] == entries;
  }

  /** What flatten_interface_config records for one interface. */
  datatype IfaceEntry = IfaceEntry(address: Option<string>, description: Node)

  /** The record of one interface or VLAN: a non-dict configuration counts as {}. */
  function EntryOf(cfg: Node): (r: IfaceEntry)
    ensures !cfg.Map? ==> r == IfaceEntry(Option.None, Node.None)
  {
    var m := if cfg.Map? then cfg.entries else [];
    IfaceEntry(ExtractAddressValue(Get(m, "address")), Get(m, "description"))
  }

  /** The VLAN records of one interface, written over `flat` in order. */
  function PutVlans(flat: map<string, IfaceEntry>, parent: string, vifs: Entries): (r: map<string, IfaceEntry>)
    ensures r.Keys == flat.Keys + set v | v in Keys(vifs) :: VlanName(parent, v)
  {
    if vifs == [] then flat
    else
      var init := vifs[..|vifs| - 1];
      var last := vifs[|vifs| - 1];
      assert Keys(vifs) == Keys(init) + [last.0];
      PutVlans(flat, parent, init)[VlanName(parent, last.0) := EntryOf(last.1)]
  }

  /** The records of the ethernet entries, written in order (a later name overwrites). */
  function FlatOf(eth: Entries): map<string, IfaceEntry>
  {
    if eth == [] then map[]
    else
      var last := eth[|eth| - 1];
      PutVlans(FlatOf(eth[..|eth| - 1])[last.0 := EntryOf(last.1)], last.0, VifEntries(last.1))
  }

  /** flatten_interface_config: one record per interface and per VLAN sub-interface. */
  function FlattenedInterfaces(config: Node): map<string, IfaceEntry>
  {
    match EthernetOf(config)
    case None => map[]
    case Some(eth) => FlatOf(eth)
  }

  /** The flattened view has a record for exactly the configured interface names. */
  lemma {:induction false} FlattenedCoversConfigured(config: Node)
    ensures FlattenedInterfaces(config).Keys == ConfiguredInterfaces(config)
  {
    if EthernetOf(config).Some? {
      FlatOfKeys(EthernetOf(config).value);
    }
  }

  lemma {:induction false} FlatOfKeys(eth: Entries)
    ensures FlatOf(eth).Keys == ConfiguredNames(eth)
  {
    if eth != [] {
      FlatOfKeys(eth[..|eth| - 1]);
    }
  }

  /** flatten_interface_config as the source runs it: a loop over the ethernet entries. */
  method FlattenInterfaceConfig(config: Node) returns (flat: map<string, IfaceEntry>)
    ensures flat == FlattenedInterfaces(config)
  {
    flat := map[];
    var eth := EthernetOf(config);
    if eth.None? {
      return;
    }
    var entries := eth.value;
    var i := 0;
    while i < |entries|
      invariant 0 <= i <= |entries|
      invariant flat == FlatOf(entries[..i])
    {
      assert entries[..i + 1][..i] == entries[..i];
      var name := entries[i].0;
      flat := PutVlansLoop(flat[name := EntryOf(entries[i].1)], name, VifEntries(entries[i].1));
      i := i + 1;
    }
    assert entries[..i] == entries;
  }

  /** The inner loop of flatten_interface_config: one record per VLAN id. */
  method PutVlansLoop(base: map<string, IfaceEntry>, parent: string, vifs: Entries)
    returns (flat: map<string, IfaceEntry>)
    ensures flat == PutVlans(base, parent, vifs)
  {
    flat := base;
    var j := 0;
    while j < |vifs|
      invariant 0 <= j <= |vifs|
      invariant flat == PutVlans(base, parent, vifs[..j])
    {
      assert vifs[..j + 1][..j] == vifs[..j];
      flat := flat[VlanName(parent, vifs[j].0) := EntryOf(vifs[j].1)];
      j := j + 1;
    }
    assert vifs[..j] == vifs;
  }

  // ---------------------------------------------------------------------------
  // The integer-keyed rule map

  /** A rule map: rule numbers with their dict contents, as a Python dict in key order. */
  type RuleMap = seq<(int, Entries)>

  /** The (key, contents) items normalise_rule_map walks: a dict's, or those of each dict of a list. */
  function RuleItems(container: Node): Entries
  {
    match container
    case Map(m) => m
    case List(xs) => DictItems(xs)
    case _ => []
  }

  function DictItems(xs: seq<Node>): Entries
  {
    if xs == [] then []
    else
      var last := xs[|xs| - 1];
      DictItems(xs[..|xs| - 1]) + (if last.Map? then last.entries else [])
  }

  /** Non-dict contents become {}. */
  function RuleContents(v: Node): Entries
  {
    if v.Map? then v.entries else []
  }

  predicate DistinctKeys(m: RuleMap)
  {
    forall i, j :: 0 <= i < j < |m| ==> m[i].0 != m[j].0
  }

  /** rule_map[k] = v: replaces the value of an existing key in place, else appends. */
  function PutRule(m: RuleMap, k: int, v: Entries): (r: RuleMap)
    requires DistinctKeys(m)
    ensures DistinctKeys(r)
    ensures forall x :: x in r <==> x == (k, v) || (x in m && x.0 != k)
  {
    if m == [] then [(k, v)]
    else if m[0].0 == k then
      assert forall x :: x in m[1..] ==> x.0 != k;
      [(k, v)] + m[1..]
    else
      var rest := PutRule(m[1..], k, v);
      assert forall x :: x in rest ==> x.0 != m[0].0;
      [m[0]] + rest
  }

  /** The rule map of the items walked so far: unparsable keys skipped, a later number overwrites. */
  function RuleMapOf(items: Entries): (r: RuleMap)
    ensures DistinctKeys(r)
  {
    if items == [] then []
    else
      var acc := RuleMapOf(items[..|items| - 1]);
      var last := items[|items| - 1];
      match ParseInt(last.0)
      case None => acc
      case Some(n) => PutRule(acc, n, RuleContents(last.1))
  }

  /** normalise_rule_map: the rule map, sorted by number. */
  function NormaliseRuleMap(container: Node): (r: RuleMap)
    ensures StrictlyIncreasing(KeysOf(r))
    ensures forall x :: x in r <==> x in RuleMapOf(RuleItems(container))
  {
    SortByKey(RuleMapOf(RuleItems(container)))
  }

  /** The contents the last item numbered `n` carries, if any. */
  function LastWith(items: Entries, n: int): Option<Entries>
  {
    if items == [] then Option.None
    else
      var last := items[|items| - 1];
      if ParseInt(last.0) == Some(n) then Some(RuleContents(last.1)) else LastWith(items[..|items| - 1], n)
  }

  /**
   * The rule map holds, for each number some key parses to, the contents of
   * the last such item, and nothing else.
   */
  lemma {:induction false} RuleMapOfSpec(items: Entries, n: int, c: Entries)
    ensures (n, c) in RuleMapOf(items) <==> LastWith(items, n) == Some(c)
  {
    if items != [] {
      RuleMapOfSpec(items[..|items| - 1], n, c);
    }
  }

  lemma RuleMapOfSnoc(items: Entries, i: int)
    requires 0 <= i < |items|
    ensures RuleMapOf(items[..i + 1]) == match ParseInt(items[i].0)
      case None => RuleMapOf(items[..i])
      case Some(n) => PutRule(RuleMapOf(items[..i]), n, RuleContents(items[i].1))
  {
    assert items[..i + 1][..i] == items[..i];
    assert items[..i + 1][i] == items[i];
  }

  /** normalise_rule_map as the source runs it: a loop over the items, then a sort. */
  method NormaliseRuleMapLoop(container: Node) returns (rules: RuleMap)
    ensures rules == NormaliseRuleMap(container)
  {
    var items := RuleItems(container);
    var acc: RuleMap := [];
    var i := 0;
    while i < |items|
      invariant 0 <= i <= |items|
      invariant acc == RuleMapOf(items[..i])
    {
      RuleMapOfSnoc(items, i);
      var number := ParseInt(items[i].0);
      if number.Some? {
        acc := PutRule(acc, number.value, RuleContents(items[i].1));
      }
      i := i + 1;
    }
    assert items[..i] == items;
    rules := SortByKey(acc);
  }

  /** max(nat_rules.keys()): the last key of a sorted rule map. */
  lemma SortedLastIsMax(m: RuleMap, i: int)
    requires StrictlyIncreasing(KeysOf(m)) && 0 <= i < |m|
    ensures m[i].0 <= m[|m| - 1].0
  {
    assert KeysOf(m)[i] == m[i].0 && KeysOf(m)[|m| - 1] == m[|m| - 1].0;
  }
}
