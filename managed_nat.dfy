/**
 * The source-NAT rules the interface pages manage on an interface's behalf:
 * the description that marks a rule as managed, the commands that create or
 * update one, the lookups over the current rules, the next free number, the
 * interface-to-rule assignment and the reorder that packs the managed rules
 * at the start of the numbering.
 *
 * The current rules are the normalised rule map (number -> rule dict, in
 * ascending order). The three constants the source imports from its
 * constants file are not part of this model: they are the fields of a
 * NatConstants parameter, so every property holds whatever their values.
 */
module ManagedNat {
  import opened Wrappers
  import opened Text
  import opened Numbers
  import opened ConfigTree
  import opened Paths
  import opened Device
  import opened IfaceUtils
  import FirewallRules
  import NatViews

  /** MIN_NAT_RULE_NUMBER, NAT_RULE_DESCRIPTION_PREFIX and NAT_TRANSLATION_MODE. */
  datatype NatConstants = NatConstants(minRule: int, prefix: string, mode: string)

  /** nat source rule <n>. */
  function Root(n: int): Path
  {
    NatViews.NatRoot("source", IntStr(n))
  }

  /** Two rule roots are the same path only for the same number. */
  lemma RootInjective(a: int, b: int)
    requires Root(a) == Root(b)
    ensures a == b
  {
    assert Root(a)[3] == IntStr(a) && Root(b)[3] == IntStr(b);
    IntStrInjective(a, b);
  }

  /** A path lies below at most one rule root. */
  lemma BelowOneRoot(q: Path, a: int, b: int)
    requires HasPrefix(q, Root(a)) && HasPrefix(q, Root(b))
    ensures a == b
  {
    assert Root(a) == q[..4] == Root(b);
    RootInjective(a, b);
  }

  // ---------------------------------------------------------------------------
  // The description marker

  /** normalise_iface_name(name) or "": the interface name without its "@" suffix. */
  function IfaceKey(name: string): string
  {
    NormaliseIfaceName(Some(name)).value
  }

  /** nat_rule_description: the managed-rule prefix followed by the interface key. */
  function NatRuleDescription(c: NatConstants, ifaceName: string): string
  {
    c.prefix + IfaceKey(ifaceName)
  }

  /** The leaf value of a rule's description, if it has one. */
  function DescriptionOf(rule: Entries): Option<string>
  {
    ExtractLeafValue(Get(rule, "description"))
  }

  /** _is_managed_nat_rule: the description is a string that starts with the prefix. */
  predicate IsManagedNatRule(c: NatConstants, rule: Entries)
  {
    DescriptionOf(rule).Some? && StartsWith(DescriptionOf(rule).value, c.prefix)
  }

  /**
   * extract_managed_iface_name: what follows the prefix in a managed rule's
   * description; None for an unmanaged rule or an empty remainder.
   */
  function ExtractManagedIfaceName(c: NatConstants, rule: Entries): (r: Option<string>)
    ensures r.Some? ==> IsManagedNatRule(c, rule) && r.value != [] && DescriptionOf(rule) == Some(c.prefix + r.value)
    ensures IsManagedNatRule(c, rule) && r.None? ==> DescriptionOf(rule) == Some(c.prefix)
    ensures !IsManagedNatRule(c, rule) ==> r.None?
  {
    if IsManagedNatRule(c, rule) then
      var d := DescriptionOf(rule).value;
      var rest := d[|c.prefix|..];
      assert d == d[..|c.prefix|] + rest;
      assert d == c.prefix + rest;
      assert rest == [] ==> d == c.prefix;
      if rest == [] then Option.None else Some(rest)
    else Option.None
  }

  /**
   * The marker round trip: a rule described by nat_rule_description(name) is
   * managed, and extract_managed_iface_name gives back the interface key
   * (None when that key is empty).
   */
  lemma ManagedNameOfDescription(c: NatConstants, rule: Entries, ifaceName: string)
    requires DescriptionOf(rule) == Some(NatRuleDescription(c, ifaceName))
    ensures IsManagedNatRule(c, rule)
    ensures ExtractManagedIfaceName(c, rule) ==
      (if IfaceKey(ifaceName) == [] then Option.None else Some(IfaceKey(ifaceName)))
  {
    var d := NatRuleDescription(c, ifaceName);
    assert d[..|c.prefix|] == c.prefix;
    assert d[|c.prefix|..] == IfaceKey(ifaceName);
  }

  // ---------------------------------------------------------------------------
  // Field extraction

  /** A field written either as a scalar or as a dict holding it under `inner`. */
  function FieldOf(rule: Entries, key: string, inner: string): Node
  {
    var v := Get(rule, key);
    if v.Map? then Get(v.entries, inner) else v
  }

  /** extract_nat_outbound_interface: outbound-interface, or its "name" when it is a dict. */
  function ExtractNatOutboundInterface(rule: Entries): (r: Option<string>)
    ensures Get(rule, "outbound-interface").Leaf? ==> r == Some(Get(rule, "outbound-interface").text)
    ensures Get(rule, "outbound-interface").None? ==> r.None?
  {
    ExtractLeafValue(FieldOf(rule, "outbound-interface", "name"))
  }

  /** extract_nat_source_network: source, or its "address" when it is a dict. */
  function ExtractNatSourceNetwork(rule: Entries): (r: Option<string>)
    ensures Get(rule, "source").Leaf? ==> r == Some(Get(rule, "source").text)
    ensures Get(rule, "source").None? ==> r.None?
  {
    ExtractLeafValue(FieldOf(rule, "source", "address"))
  }

  // ---------------------------------------------------------------------------
  // Command builders

  /** build_nat_rule_update_commands: the four field paths of a managed rule. */
  function BuildNatRuleUpdateCommands(c: NatConstants, number: int, outbound: string, network: string, ifaceName: string)
    : (r: seq<Path>)
    ensures |r| == 4
    ensures forall i :: 0 <= i < 4 ==> HasPrefix(r[i], Root(number)) && |r[i]| > 4
  {
    var root := Root(number);
    [Under(root, ["outbound-interface", "name", outbound]),
     Under(root, ["source", "address", network]),
     Under(root, ["translation", "address", c.mode]),
     Under(root, ["description", NatRuleDescription(c, ifaceName)])]
  }

  /** build_nat_rule_commands: the rule root, then the same four field paths. */
  function BuildNatRuleCommands(c: NatConstants, number: int, outbound: string, network: string, ifaceName: string)
    : (r: seq<Path>)
    ensures |r| == 5 && r[0] == Root(number)
    ensures r[1..] == BuildNatRuleUpdateCommands(c, number, outbound, network, ifaceName)
    ensures forall i :: 0 <= i < 5 ==> HasPrefix(r[i], Root(number))
  {
    var root := Root(number);
    [root,
     Under(root, ["outbound-interface", "name", outbound]),
     Under(root, ["source", "address", network]),
     Under(root, ["translation", "address", c.mode]),
     Under(root, ["description", NatRuleDescription(c, ifaceName)])]
  }

  /** The rule as the device reports it once the build commands are applied (keys in the device's order). */
  function BuiltRuleConfig(c: NatConstants, outbound: string, network: string, ifaceName: string): Entries
  {
    [("description", Leaf(NatRuleDescription(c, ifaceName))),
     ("outbound-interface", Map([("name", Leaf(outbound))])),
     ("source", Map([("address", Leaf(network))])),
     ("translation", Map([("address", Leaf(c.mode))]))]
  }

  /**
   * The builders and the extractors agree: the rule the commands create reads
   * back with the same outbound interface, source network and interface key,
   * and is counted as managed.
   */
  lemma BuiltRuleReadsBack(c: NatConstants, outbound: string, network: string, ifaceName: string)
    ensures ExtractNatOutboundInterface(BuiltRuleConfig(c, outbound, network, ifaceName)) == Some(outbound)
    ensures ExtractNatSourceNetwork(BuiltRuleConfig(c, outbound, network, ifaceName)) == Some(network)
    ensures IsManagedNatRule(c, BuiltRuleConfig(c, outbound, network, ifaceName))
    ensures ExtractManagedIfaceName(c, BuiltRuleConfig(c, outbound, network, ifaceName)) ==
      (if IfaceKey(ifaceName) == [] then Option.None else Some(IfaceKey(ifaceName)))
  {
    var cfg := BuiltRuleConfig(c, outbound, network, ifaceName);
    assert Get(cfg, "description") == Leaf(NatRuleDescription(c, ifaceName));
    assert Lookup(cfg, "outbound-interface") == Lookup(cfg[1..], "outbound-interface");
    assert Get(cfg, "outbound-interface") == Map([("name", Leaf(outbound))]);
    assert Lookup(cfg, "source") == Lookup(cfg[1..], "source") == Lookup(cfg[2..], "source");
    assert Get(cfg, "source") == Map([("address", Leaf(network))]);
    ManagedNameOfDescription(c, cfg, ifaceName);
  }

  // ---------------------------------------------------------------------------
  // Looking up the rule of an interface

  /** The first position whose rule satisfies `p`. */
  function FirstWhere(rules: RuleMap, p: Entries -> bool): (r: Option<nat>)
    ensures r.Some? ==> r.value < |rules| && p(rules[r.value].1)
    ensures r.Some? ==> forall j :: 0 <= j < r.value ==> !p(rules[j].1)
    ensures r.None? ==> forall j :: 0 <= j < |rules| ==> !p(rules[j].1)
  {
    if rules == [] then Option.None
    else if p(rules[0].1) then Some(0)
    else
      var rest := FirstWhere(rules[1..], p);
      assert forall j :: 1 <= j < |rules| ==> rules[j] == rules[1..][j - 1];
      if rest.None? then Option.None else Some(rest.value + 1)
  }

  /** A position whose rule passes, with none passing before it, is the one found. */
  lemma FirstWhereAt(rules: RuleMap, p: Entries -> bool, i: int)
    requires 0 <= i < |rules| && p(rules[i].1)
    requires forall j :: 0 <= j < i ==> !p(rules[j].1)
    ensures FirstWhere(rules, p) == Some(i)
  {
  }

  lemma FirstWhereNone(rules: RuleMap, p: Entries -> bool)
    requires forall j :: 0 <= j < |rules| ==> !p(rules[j].1)
    ensures FirstWhere(rules, p).None?
  {
  }

  function HasDescription(target: string): Entries -> bool
  {
    rule => DescriptionOf(rule) == Some(target)
  }

  function HasNetwork(candidate: Option<string>): Entries -> bool
  {
    rule => ExtractNatSourceNetwork(rule) == candidate
  }

  predicate DescribedFor(c: NatConstants, rule: Entries, ifaceName: string)
  {
    DescriptionOf(rule) == Some(NatRuleDescription(c, ifaceName))
  }

  predicate NetworkIs(rule: Entries, network: string)
  {
    ExtractNatSourceNetwork(rule) == Some(network)
  }

  /**
   * find_nat_rule_for_iface: the first rule described for the interface; failing
   * that, when a candidate network is given, the first rule whose source is
   * that network; otherwise nothing.
   */
  function FindNatRuleForIface(c: NatConstants, rules: RuleMap, ifaceName: string, candidate: Option<string>)
    : (r: Option<(int, Entries)>)
    ensures r.Some? ==> r.value in rules
    ensures (exists i :: 0 <= i < |rules| && DescribedFor(c, rules[i].1, ifaceName)) ==>
      r.Some? && DescribedFor(c, r.value.1, ifaceName)
    ensures ((forall i :: 0 <= i < |rules| ==> !DescribedFor(c, rules[i].1, ifaceName)) &&
      candidate.Some? && candidate.value != [] && (exists i :: 0 <= i < |rules| && NetworkIs(rules[i].1, candidate.value))) ==>
      r.Some? && NetworkIs(r.value.1, candidate.value)
    ensures r.None? <==>
      (forall i :: 0 <= i < |rules| ==> !DescribedFor(c, rules[i].1, ifaceName)) &&
      (candidate.None? || candidate.value == [] || forall i :: 0 <= i < |rules| ==> !NetworkIs(rules[i].1, candidate.value))
  {
    if rules == [] then Option.None
    else
      var target := NatRuleDescription(c, IfaceKey(ifaceName));
      NormaliseIfaceNameIdempotent(Some(ifaceName));
      assert target == NatRuleDescription(c, ifaceName);
      match FirstWhere(rules, HasDescription(target))
      case Some(i) => Some(rules[i])
      case None =>
        if candidate.Some? && candidate.value != [] then
          match FirstWhere(rules, HasNetwork(candidate))
          case Some(j) => Some(rules[j])
          case None => Option.None
        else Option.None
  }

  /** A rule described for the interface, with none before it, is the one found. */
  lemma FindDescribedAt(c: NatConstants, rules: RuleMap, ifaceName: string, candidate: Option<string>, i: int)
    requires 0 <= i < |rules|
    requires DescriptionOf(rules[i].1) == Some(NatRuleDescription(c, IfaceKey(ifaceName)))
    requires forall j :: 0 <= j < i ==> DescriptionOf(rules[j].1) != Some(NatRuleDescription(c, IfaceKey(ifaceName)))
    ensures FindNatRuleForIface(c, rules, ifaceName, candidate) == Some(rules[i])
  {
    FirstWhereAt(rules, HasDescription(NatRuleDescription(c, IfaceKey(ifaceName))), i);
  }

  /** With no described rule, the first rule on the candidate network is the one found. */
  lemma FindNetworkAt(c: NatConstants, rules: RuleMap, ifaceName: string, candidate: Option<string>, i: int)
    requires candidate.Some? && candidate.value != []
    requires forall j :: 0 <= j < |rules| ==> DescriptionOf(rules[j].1) != Some(NatRuleDescription(c, IfaceKey(ifaceName)))
    requires 0 <= i < |rules| && ExtractNatSourceNetwork(rules[i].1) == candidate
    requires forall j :: 0 <= j < i ==> ExtractNatSourceNetwork(rules[j].1) != candidate
    ensures FindNatRuleForIface(c, rules, ifaceName, candidate) == Some(rules[i])
  {
    var target := NatRuleDescription(c, IfaceKey(ifaceName));
    FirstWhereNone(rules, HasDescription(target));
    FirstWhereAt(rules, HasNetwork(candidate), i);
  }

  /** With neither kind of match nothing is found. */
  lemma FindNothing(c: NatConstants, rules: RuleMap, ifaceName: string, candidate: Option<string>)
    requires forall j :: 0 <= j < |rules| ==> DescriptionOf(rules[j].1) != Some(NatRuleDescription(c, IfaceKey(ifaceName)))
    requires candidate.Some? && candidate.value != [] ==>
      forall j :: 0 <= j < |rules| ==> ExtractNatSourceNetwork(rules[j].1) != candidate
    ensures FindNatRuleForIface(c, rules, ifaceName, candidate).None?
  {
  }

  /** The first loop of find_nat_rule_for_iface: the first rule carrying the description. */
  method FindDescribed(rules: RuleMap, target: string) returns (i: int)
    ensures 0 <= i <= |rules|
    ensures i < |rules| ==> DescriptionOf(rules[i].1) == Some(target)
    ensures forall j :: 0 <= j < i ==> DescriptionOf(rules[j].1) != Some(target)
  {
    i := 0;
    while i < |rules|
      invariant 0 <= i <= |rules|
      invariant forall j :: 0 <= j < i ==> DescriptionOf(rules[j].1) != Some(target)
    {
      if DescriptionOf(rules[i].1) == Some(target) {
        return;
      }
      i := i + 1;
    }
  }

  /** The second loop of find_nat_rule_for_iface: the first rule on the candidate network. */
  method FindNetwork(rules: RuleMap, candidate: Option<string>) returns (i: int)
    ensures 0 <= i <= |rules|
    ensures i < |rules| ==> ExtractNatSourceNetwork(rules[i].1) == candidate
    ensures forall j :: 0 <= j < i ==> ExtractNatSourceNetwork(rules[j].1) != candidate
  {
    i := 0;
    while i < |rules|
      invariant 0 <= i <= |rules|
      invariant forall j :: 0 <= j < i ==> ExtractNatSourceNetwork(rules[j].1) != candidate
    {
      if ExtractNatSourceNetwork(rules[i].1) == candidate {
        return;
      }
      i := i + 1;
    }
  }

  /** find_nat_rule_for_iface as the source runs it: two loops with an early return. */
  method FindNatRuleLoop(c: NatConstants, rules: RuleMap, ifaceName: string, candidate: Option<string>)
    returns (found: Option<(int, Entries)>)
    ensures found == FindNatRuleForIface(c, rules, ifaceName, candidate)
  {
    if rules == [] {
      return Option.None;
    }
    var target := NatRuleDescription(c, IfaceKey(ifaceName));
    var i := FindDescribed(rules, target);
    if i < |rules| {
      FindDescribedAt(c, rules, ifaceName, candidate, i);
      return Some(rules[i]);
    }
    if candidate.Some? && candidate.value != [] {
      var j := FindNetwork(rules, candidate);
      if j < |rules| {
        FindNetworkAt(c, rules, ifaceName, candidate, j);
        return Some(rules[j]);
      }
    }
    FindNothing(c, rules, ifaceName, candidate);
    return Option.None;
  }

  // ---------------------------------------------------------------------------
  // The next free number

  /**
   * next_nat_rule_number: the minimum for no rules or when every rule lies
   * below it, else one past the largest number; never an existing number.
   */
  function NextNatRuleNumber(c: NatConstants, rules: RuleMap): (r: int)
    ensures r >= c.minRule
    ensures forall x :: x in rules ==> x.0 < r
    ensures r != c.minRule ==> exists x :: x in rules && x.0 == r - 1
  {
    if rules == [] then c.minRule
    else
      var keys := KeysOf(rules);
      var top := MaxOf(keys);
      assert forall x :: x in rules ==> x.0 in keys by {
        forall x | x in rules ensures x.0 in keys {
          var i :| 0 <= i < |rules| && rules[i] == x;
          assert keys[i] == x.0;
        }
      }
      var k :| 0 <= k < |keys| && keys[k] == top;
      assert rules[k] in rules;
      if top >= c.minRule then top + 1 else c.minRule
  }

  // ---------------------------------------------------------------------------
  // Interface assignments

  /** What map_nat_assignments records for one managed rule. */
  datatype Assignment = Assignment(outbound: Option<string>, rule: int, network: Option<string>)

  function AssignmentOf(entry: (int, Entries)): Assignment
  {
    Assignment(ExtractNatOutboundInterface(entry.1), entry.0, ExtractNatSourceNetwork(entry.1))
  }

  /** map_nat_assignments over the rules walked so far: a later rule for the same name wins. */
  function Assignments(c: NatConstants, rules: RuleMap): map<string, Assignment>
  {
    if rules == [] then map[]
    else
      var acc := Assignments(c, rules[..|rules| - 1]);
      var last := rules[|rules| - 1];
      match ExtractManagedIfaceName(c, last.1)
      case None => acc
      case Some(name) => acc[name := AssignmentOf(last)]
  }

  predicate ManagedFor(c: NatConstants, rules: RuleMap, i: int, name: string)
    requires 0 <= i < |rules|
  {
    ExtractManagedIfaceName(c, rules[i].1) == Some(name)
  }

  /** Every interface name of a managed rule has an entry. */
  lemma {:induction false} AssignmentsCover(c: NatConstants, rules: RuleMap, i: int, name: string)
    requires 0 <= i < |rules| && ManagedFor(c, rules, i, name)
    ensures name in Assignments(c, rules)
  {
    var n := |rules| - 1;
    if i < n {
      var init := rules[..n];
      assert ManagedFor(c, init, i, name);
      AssignmentsCover(c, init, i, name);
    }
  }

  /**
   * Only managed rules have entries, and each entry describes the last rule
   * managed for that interface name.
   */
  lemma {:induction false} AssignmentsLastWins(c: NatConstants, rules: RuleMap, name: string)
    requires name in Assignments(c, rules)
    ensures exists i :: LastManagedFor(c, rules, i, name) && Assignments(c, rules)[name] == AssignmentOf(rules[i])
  {
    var n := |rules| - 1;
    var init := rules[..n];
    if ExtractManagedIfaceName(c, rules[n].1) == Some(name) {
      assert LastManagedFor(c, rules, n, name);
    } else {
      AssignmentsLastWins(c, init, name);
      var i :| LastManagedFor(c, init, i, name) && Assignments(c, init)[name] == AssignmentOf(init[i]);
      LastManagedForExtends(c, rules, i, name);
    }
  }

  /** The i-th rule is managed for `name` and no later rule is. */
  predicate LastManagedFor(c: NatConstants, rules: RuleMap, i: int, name: string)
  {
    0 <= i < |rules| && ManagedFor(c, rules, i, name) &&
    forall j :: i < j < |rules| ==> !ManagedFor(c, rules, j, name)
  }

  lemma LastManagedForExtends(c: NatConstants, rules: RuleMap, i: int, name: string)
    requires rules != [] && LastManagedFor(c, rules[..|rules| - 1], i, name)
    requires ExtractManagedIfaceName(c, rules[|rules| - 1].1) != Some(name)
    ensures LastManagedFor(c, rules, i, name) && rules[i] == rules[..|rules| - 1][i]
  {
    var init := rules[..|rules| - 1];
    forall j | i < j < |rules| ensures !ManagedFor(c, rules, j, name) {
      if j < |init| {
        assert init[j] == rules[j];
        assert !ManagedFor(c, init, j, name);
      }
    }
  }

  /** map_nat_assignments as the source runs it: one dict assignment per managed rule. */
  method MapNatAssignments(c: NatConstants, rules: RuleMap) returns (assignment: map<string, Assignment>)
    ensures assignment == Assignments(c, rules)
  {
    assignment := map[];
    var i := 0;
    while i < |rules|
      invariant 0 <= i <= |rules|
      invariant assignment == Assignments(c, rules[..i])
    {
      assert rules[..i + 1][..i] == rules[..i];
      var name := ExtractManagedIfaceName(c, rules[i].1);
      if name.Some? {
        assignment := assignment[name.value := AssignmentOf(rules[i])];
      }
      i := i + 1;
    }
    assert rules[..i] == rules;
  }

  // ---------------------------------------------------------------------------
  // Reordering the managed rules

  /** The managed rules, in the order given. */
  function ManagedRules(c: NatConstants, rules: RuleMap): (r: RuleMap)
    ensures forall x :: x in r <==> x in rules && IsManagedNatRule(c, x.1)
    ensures |r| <= |rules|
  {
    if rules == [] then []
    else
      var rest := ManagedRules(c, rules[1..]);
      assert forall x :: x in rules <==> x == rules[0] || x in rules[1..];
      if IsManagedNatRule(c, rules[0].1) then [rules[0]] + rest else rest
  }

  /** MIN + index for each position: the numbers the source packs the managed rules into. */
  function DenseTargets(start: int, k: nat): (r: seq<int>)
    ensures |r| == k && forall i :: 0 <= i < k ==> r[i] == start + i
  {
    seq(k, i => start + i)
  }

  /** Whether every rule already sits at its target number. */
  predicate Settled(ms: RuleMap, targets: seq<int>)
    requires |targets| == |ms|
  {
    forall i :: 0 <= i < |ms| ==> ms[i].0 == targets[i]
  }

  /** The root of each rule that moves: the delete_paths of the loop, one batch per rule. */
  function DeleteBatches(ms: RuleMap, targets: seq<int>): (r: seq<seq<Path>>)
    requires |targets| == |ms|
    ensures |r| == |ms|
  {
    seq(|ms|, i requires 0 <= i < |ms| => if ms[i].0 == targets[i] then [] else [Root(ms[i].0)])
  }

  /** The flattened rule at its new root for each rule that moves: the set_commands of the loop. */
  function SetBatches(ms: RuleMap, targets: seq<int>): (r: seq<seq<Path>>)
    requires |targets| == |ms|
    ensures |r| == |ms|
  {
    seq(|ms|, i requires 0 <= i < |ms| =>
      if ms[i].0 == targets[i] then [] else FirewallRules.Flatten(Map(ms[i].1), Root(targets[i]), false))
  }

  /** The loop of reorder_managed_nat_rules: rules already in place are skipped. */
  method CollectMoves(ms: RuleMap, targets: seq<int>) returns (deletePaths: seq<Path>, setCommands: seq<Path>)
    requires |targets| == |ms|
    ensures deletePaths == Concat(DeleteBatches(ms, targets))
    ensures setCommands == Concat(SetBatches(ms, targets))
  {
    var dbs := DeleteBatches(ms, targets);
    var sbs := SetBatches(ms, targets);
    deletePaths := [];
    setCommands := [];
    var i := 0;
    while i < |ms|
      invariant 0 <= i <= |ms|
      invariant deletePaths == Concat(dbs[..i])
      invariant setCommands == Concat(sbs[..i])
    {
      FirewallRules.ConcatStep(dbs, i);
      FirewallRules.ConcatStep(sbs, i);
      if ms[i].0 != targets[i] {
        deletePaths := deletePaths + [Root(ms[i].0)];
        var moved := FirewallRules.FlattenConfigTree(Map(ms[i].1), Root(targets[i]), false);
        setCommands := setCommands + moved;
      }
      i := i + 1;
    }
    assert dbs[..i] == dbs && sbs[..i] == sbs;
  }

  /** What the reorder returns (success, error message), with the device calls it made. */
  datatype ManagedReorder = ManagedReorder(ok: bool, message: Option<string>, calls: seq<Call>)

  /**
   * The device half of the reorder: nothing when every rule is in place;
   * otherwise one delete call of the moved roots, and, when it succeeded, one
   * set call of their flattened contents at the new numbers.
   */
  function Renumber(ms: RuleMap, targets: seq<int>, del: Response, put: Response): ManagedReorder
    requires |targets| == |ms|
  {
    if Settled(ms, targets) then ManagedReorder(true, Option.None, [])
    else
      var ds := Concat(DeleteBatches(ms, targets));
      var ss := Concat(SetBatches(ms, targets));
      var deleteCalls := if ds == [] then [] else [DeleteCall(ds)];
      if ds != [] && del.error != [] then
        ManagedReorder(false, Some("Failed to reorder NAT rules: " + del.error), deleteCalls)
      else if ds != [] && del.status != 200 then
        ManagedReorder(false, Some("Device returned status " + IntStr(del.status) + " while reordering NAT rules"), deleteCalls)
      else
        var outcome := ConfigureSet(ss, "NAT rule reorder", put);
        var calls := deleteCalls + (if ss == [] then [] else [SetCall(ss)]);
        if outcome.ok then ManagedReorder(true, Option.None, calls) else ManagedReorder(false, outcome.message, calls)
  }

  /** The managed rules of a rule dict, in ascending number order. */
  function SortedManaged(c: NatConstants, rules: RuleMap): RuleMap
    requires DistinctKeys(rules)
  {
    ManagedRules(c, SortByKey(rules))
  }

  /**
   * reorder_managed_nat_rules as written: with two or more managed rules, the
   * i-th of them (ascending) moves to MIN + i. The responses of the delete and
   * set calls are parameters.
   */
  function ReorderManagedNatRules(c: NatConstants, rules: RuleMap, del: Response, put: Response): (r: ManagedReorder)
    requires DistinctKeys(rules)
    ensures |SortedManaged(c, rules)| <= 1 ==> r == ManagedReorder(true, Option.None, [])
  {
    var ms := SortedManaged(c, rules);
    if |ms| <= 1 then ManagedReorder(true, Option.None, [])
    else Renumber(ms, DenseTargets(c.minRule, |ms|), del, put)
  }

  /** The needs_reorder scan: some rule is not at its target. */
  method NeedsMove(ms: RuleMap, targets: seq<int>) returns (needsReorder: bool)
    requires |targets| == |ms|
    ensures needsReorder == !Settled(ms, targets)
  {
    needsReorder := false;
    var i := 0;
    while i < |ms|
      invariant 0 <= i <= |ms|
      invariant needsReorder <==> exists j :: 0 <= j < i && ms[j].0 != targets[j]
    {
      if ms[i].0 != targets[i] {
        needsReorder := true;
      }
      i := i + 1;
    }
  }

  /** The delete call, then the set call, with the early returns of the source. */
  method ApplyMoves(ms: RuleMap, targets: seq<int>, del: Response, put: Response) returns (r: ManagedReorder)
    requires |targets| == |ms| && !Settled(ms, targets)
    ensures r == Renumber(ms, targets, del, put)
  {
    var deletePaths, setCommands := CollectMoves(ms, targets);
    var calls: seq<Call> := [];
    if deletePaths != [] {
      calls := [DeleteCall(deletePaths)];
      if del.error != [] {
        return ManagedReorder(false, Some("Failed to reorder NAT rules: " + del.error), calls);
      }
      if del.status != 200 {
        return ManagedReorder(false, Some("Device returned status " + IntStr(del.status) + " while reordering NAT rules"), calls);
      }
    }
    if setCommands != [] {
      calls := calls + [SetCall(setCommands)];
    }
    var outcome := ConfigureSet(setCommands, "NAT rule reorder", put);
    if !outcome.ok {
      return ManagedReorder(false, outcome.message, calls);
    }
    return ManagedReorder(true, Option.None, calls);
  }

  /** reorder_managed_nat_rules with its loops run as the source runs them. */
  method ReorderManagedNatRulesLoop(c: NatConstants, rules: RuleMap, del: Response, put: Response)
    returns (r: ManagedReorder)
    requires DistinctKeys(rules)
    ensures r == ReorderManagedNatRules(c, rules, del, put)
  {
    var ms := SortedManaged(c, rules);
    if |ms| <= 1 {
      return ManagedReorder(true, Option.None, []);
    }
    var targets := DenseTargets(c.minRule, |ms|);
    var needsReorder := NeedsMove(ms, targets);
    if !needsReorder {
      return ManagedReorder(true, Option.None, []);
    }
    r := ApplyMoves(ms, targets, del, put);
  }

  // ---------------------------------------------------------------------------
  // What the reorder sends

  /**
   * The calls of a renumbering that moves some rule: a delete call first, a
   * set call after it only when the delete succeeded and there is something
   * to set, and success only when both calls succeeded.
   */
  lemma RenumberCalls(ms: RuleMap, targets: seq<int>, del: Response, put: Response)
    requires |targets| == |ms| && !Settled(ms, targets)
    ensures var r := Renumber(ms, targets, del, put);
      var ss := Concat(SetBatches(ms, targets));
      1 <= |r.calls| <= 2 && r.calls[0] == DeleteCall(Concat(DeleteBatches(ms, targets))) &&
      (|r.calls| == 2 <==> del.error == [] && del.status == 200 && ss != []) &&
      (|r.calls| == 2 ==> r.calls[1] == SetCall(ss)) &&
      (r.ok <==> (del.error == [] && del.status == 200 && (ss == [] || (put.error == [] && put.status == 200))))
  {
    MovedDeletesSomething(ms, targets);
    var ds := Concat(DeleteBatches(ms, targets));
    var ss := Concat(SetBatches(ms, targets));
    var r := Renumber(ms, targets, del, put);
    if del.error == [] && del.status == 200 {
      var outcome := ConfigureSet(ss, "NAT rule reorder", put);
      assert r.calls == [DeleteCall(ds)] + (if ss == [] then [] else [SetCall(ss)]);
      assert r.ok == outcome.ok;
    } else {
      assert r.calls == [DeleteCall(ds)] && !r.ok;
    }
  }

  /** A renumbering that moves some rule has a root to delete. */
  lemma MovedDeletesSomething(ms: RuleMap, targets: seq<int>)
    requires |targets| == |ms| && !Settled(ms, targets)
    ensures Concat(DeleteBatches(ms, targets)) != []
  {
    var i :| 0 <= i < |ms| && ms[i].0 != targets[i];
    assert Root(ms[i].0) in DeleteBatches(ms, targets)[i];
    assert Root(ms[i].0) in Concat(DeleteBatches(ms, targets));
  }

  /** The delete call removes exactly the roots of the rules that move. */
  lemma DeletesOnlyMoved(ms: RuleMap, targets: seq<int>, d: Path)
    requires |targets| == |ms|
    ensures d in Concat(DeleteBatches(ms, targets)) <==>
      exists i :: 0 <= i < |ms| && ms[i].0 != targets[i] && d == Root(ms[i].0)
  {
    if exists i :: 0 <= i < |ms| && ms[i].0 != targets[i] && d == Root(ms[i].0) {
      var i :| 0 <= i < |ms| && ms[i].0 != targets[i] && d == Root(ms[i].0);
      assert d in DeleteBatches(ms, targets)[i];
    }
  }

  /** Every set path lies below the new root of a rule that moves. */
  lemma SetsOnlyAtTargets(ms: RuleMap, targets: seq<int>, p: Path)
    requires |targets| == |ms|
    requires p in Concat(SetBatches(ms, targets))
    ensures exists i :: 0 <= i < |ms| && ms[i].0 != targets[i] && HasPrefix(p, Root(targets[i]))
  {
    var i :| 0 <= i < |ms| && p in SetBatches(ms, targets)[i];
    FirewallRules.FlattenBelowPrefix(Map(ms[i].1), Root(targets[i]), false);
  }

  /** A call leaves rule `n` alone: it deletes no path at or above its root and sets none below it. */
  predicate CallSpares(call: Call, n: int)
  {
    match call
    case DeleteCall(ps) => forall d :: d in ps ==> |d| == 4 && d != Root(n)
    case SetCall(ps) => forall q :: q in ps ==> !HasPrefix(q, Root(n))
    case MultiCall(ops) => forall op :: op in ops ==> (if op.Delete? then |op.path| == 4 && op.path != Root(n) else !HasPrefix(op.path, Root(n)))
  }

  predicate Spares(calls: seq<Call>, n: int)
  {
    forall k :: 0 <= k < |calls| ==> CallSpares(calls[k], n)
  }

  /** A renumbering spares every number that is neither a rule's old number nor a target. */
  lemma RenumberSpares(ms: RuleMap, targets: seq<int>, del: Response, put: Response, n: int)
    requires |targets| == |ms|
    requires forall i :: 0 <= i < |ms| ==> ms[i].0 != n && targets[i] != n
    ensures Spares(Renumber(ms, targets, del, put).calls, n)
  {
    if !Settled(ms, targets) {
      var calls := Renumber(ms, targets, del, put).calls;
      var ds := Concat(DeleteBatches(ms, targets));
      var ss := Concat(SetBatches(ms, targets));
      RenumberCalls(ms, targets, del, put);
      RenumberSparesBatches(ms, targets, n);
      forall k | 0 <= k < |calls| ensures CallSpares(calls[k], n) {
        if k == 0 {
          assert calls[0] == DeleteCall(ds);
        } else {
          assert calls[1] == SetCall(ss);
        }
      }
    }
  }

  lemma RenumberSparesBatches(ms: RuleMap, targets: seq<int>, n: int)
    requires |targets| == |ms|
    requires forall i :: 0 <= i < |ms| ==> ms[i].0 != n && targets[i] != n
    ensures CallSpares(DeleteCall(Concat(DeleteBatches(ms, targets))), n)
    ensures CallSpares(SetCall(Concat(SetBatches(ms, targets))), n)
  {
    forall d | d in Concat(DeleteBatches(ms, targets)) ensures |d| == 4 && d != Root(n) {
      DeletesOnlyMoved(ms, targets, d);
      var i :| 0 <= i < |ms| && ms[i].0 != targets[i] && d == Root(ms[i].0);
      if d == Root(n) {
        RootInjective(ms[i].0, n);
      }
    }
    forall q | q in Concat(SetBatches(ms, targets)) ensures !HasPrefix(q, Root(n)) {
      SetsOnlyAtTargets(ms, targets, q);
      var i :| 0 <= i < |ms| && ms[i].0 != targets[i] && HasPrefix(q, Root(targets[i]));
      if HasPrefix(q, Root(n)) {
        BelowOneRoot(q, targets[i], n);
      }
    }
  }

  /** What a delete-then-set batch that spares rule `n` leaves of it: everything, unchanged. */
  lemma SparedRuleUnchanged(store: Store, ds: seq<Path>, ss: seq<Path>, n: int, q: Path)
    requires CallSpares(DeleteCall(ds), n) && CallSpares(SetCall(ss), n)
    requires HasPrefix(q, Root(n))
    ensures q in Run(store, Deletes(ds) + Sets(ss)) <==> q in store
  {
    DeletesThenSets(store, ds, ss);
  }

  // ---------------------------------------------------------------------------
  // Managed rules only

  /** Two entries of a dict with the same number are the same entry. */
  lemma SameKeySameEntry(rules: RuleMap, x: (int, Entries), y: (int, Entries))
    requires DistinctKeys(rules) && x in rules && y in rules && x.0 == y.0
    ensures x == y
  {
    var i :| 0 <= i < |rules| && rules[i] == x;
    var j :| 0 <= j < |rules| && rules[j] == y;
  }

  /** The numbers of the unmanaged rules. */
  function UnmanagedNumbers(c: NatConstants, rules: RuleMap): set<int>
  {
    set x | x in rules && !IsManagedNatRule(c, x.1) :: x.0
  }

  /** The old number of a managed rule is never that of an unmanaged one. */
  lemma ManagedNumbersAreNotUnmanaged(c: NatConstants, rules: RuleMap, n: int)
    requires DistinctKeys(rules) && n in UnmanagedNumbers(c, rules)
    ensures forall i :: 0 <= i < |SortedManaged(c, rules)| ==> SortedManaged(c, rules)[i].0 != n
  {
    var ms := SortedManaged(c, rules);
    var u :| u in rules && !IsManagedNatRule(c, u.1) && u.0 == n;
    forall i | 0 <= i < |ms| ensures ms[i].0 != n {
      assert ms[i] in ms;
      if ms[i].0 == n {
        SameKeySameEntry(rules, ms[i], u);
      }
    }
  }

  /**
   * The reorder never deletes an unmanaged rule, and leaves one alone
   * altogether when its number is not among the packed numbers MIN + i.
   */
  lemma ReorderSparesUnmanagedOutsideRun(c: NatConstants, rules: RuleMap, del: Response, put: Response, n: int)
    requires DistinctKeys(rules) && n in UnmanagedNumbers(c, rules)
    requires n < c.minRule || n >= c.minRule + |SortedManaged(c, rules)|
    ensures Spares(ReorderManagedNatRules(c, rules, del, put).calls, n)
  {
    var ms := SortedManaged(c, rules);
    ManagedNumbersAreNotUnmanaged(c, rules, n);
    if |ms| > 1 {
      RenumberSpares(ms, DenseTargets(c.minRule, |ms|), del, put, n);
    }
  }

  // ---------------------------------------------------------------------------
  // The packed numbers can land on an unmanaged rule

  /** Two rules marked as managed around one that is not. */
  const ClashAddress := "192.0.2.0/24"

  function ClashRules(c: NatConstants): RuleMap
  {
    [(c.minRule, [("description", Leaf(c.prefix + "eth1"))]),
     (c.minRule + 1, [("source", Map([("address", Leaf(ClashAddress))]))]),
     (c.minRule + 2, [("description", Leaf(c.prefix + "eth2"))])]
  }

  lemma ClashRulesManaged(c: NatConstants)
    ensures DistinctKeys(ClashRules(c))
    ensures c.minRule + 1 in UnmanagedNumbers(c, ClashRules(c))
    ensures SortedManaged(c, ClashRules(c)) == [ClashRules(c)[0], ClashRules(c)[2]]
  {
    ClashRulesSorted(c);
    ClashManagedFlags(c);
    var rules := ClashRules(c);
    assert rules[1] in rules;
    ClashManagedList(c);
  }

  lemma ClashRulesSorted(c: NatConstants)
    ensures StrictlyIncreasing(KeysOf(ClashRules(c))) && DistinctKeys(ClashRules(c))
    ensures SortByKey(ClashRules(c)) == ClashRules(c)
  {
    var m := c.minRule;
    assert KeysOf(ClashRules(c)) == [m, m + 1, m + 2];
    SortByKeyOfSorted(ClashRules(c));
  }

  lemma ClashManagedList(c: NatConstants)
    ensures ManagedRules(c, ClashRules(c)) == [ClashRules(c)[0], ClashRules(c)[2]]
  {
    var rules := ClashRules(c);
    ClashManagedFlags(c);
    assert rules[1..][1..] == [rules[2]];
    assert ManagedRules(c, rules[1..][1..]) == [rules[2]];
    assert ManagedRules(c, rules[1..]) == [rules[2]];
  }

  /** The first and last clash rules carry the managed prefix, the middle one no description. */
  lemma ClashManagedFlags(c: NatConstants)
    ensures IsManagedNatRule(c, ClashRules(c)[0].1)
    ensures !IsManagedNatRule(c, ClashRules(c)[1].1)
    ensures IsManagedNatRule(c, ClashRules(c)[2].1)
  {
    var rules := ClashRules(c);
    var a := rules[0].1;
    var b := rules[2].1;
    assert DescriptionOf(a) == Some(c.prefix + "eth1");
    assert (c.prefix + "eth1")[..|c.prefix|] == c.prefix;
    assert DescriptionOf(b) == Some(c.prefix + "eth2");
    assert (c.prefix + "eth2")[..|c.prefix|] == c.prefix;
    assert Get(rules[1].1, "description") == Node.None;
  }

  /** The one moved rule re-emitted at its new root: its description path. */
  lemma ClashSetPaths(c: NatConstants)
    ensures var ms := [ClashRules(c)[0], ClashRules(c)[2]];
      Concat(SetBatches(ms, DenseTargets(c.minRule, 2))) == [Root(c.minRule + 1) + ["description", c.prefix + "eth2"]] &&
      Concat(DeleteBatches(ms, DenseTargets(c.minRule, 2))) == [Root(c.minRule + 2)]
  {
    var rules := ClashRules(c);
    var m := c.minRule;
    var ms := [rules[0], rules[2]];
    var b := rules[2].1;
    var targets := DenseTargets(m, 2);
    assert targets == [m, m + 1];
    var root := Root(m + 1);
    var moved := [root + ["description", c.prefix + "eth2"]];
    assert DeleteBatches(ms, targets) == [[], [Root(m + 2)]];
    assert FirewallRules.EntryPaths("description", Leaf(c.prefix + "eth2"), root, false) == moved;
    assert FirewallRules.EntryBatches(Map(b), root, false) == [moved];
    ConcatSingle(moved);
    assert FirewallRules.Flatten(Map(b), root, false) == moved;
    assert SetBatches(ms, targets) == [[], moved];
  }

  /**
   * As written, the packed numbers MIN + i ignore the unmanaged rules: with
   * managed rules at MIN and MIN + 2 and an unmanaged rule at MIN + 1, the
   * second managed rule is re-set under the unmanaged rule's root (the calls
   * are those of ClashReorderCalls), so its fields are merged into that rule,
   * which then reads as managed.
   */
  lemma ReorderOverwritesUnmanaged(c: NatConstants)
    ensures var ok := Response(200, []);
      var r := ReorderManagedNatRules(c, ClashRules(c), ok, ok);
      c.minRule + 1 in UnmanagedNumbers(c, ClashRules(c)) && r.ok && !Spares(r.calls, c.minRule + 1)
  {
    var m := c.minRule;
    var p := Under(Root(m + 1), ["description", c.prefix + "eth2"]);
    var calls := [DeleteCall([Root(m + 2)]), SetCall([p])];
    SetBelowRootNotSpared(calls, 1, p, m + 1);
    ClashMiddleUnmanaged(c);
    ClashDistinct(c);
    ClashReorderCalls(c);
    assert ReorderManagedNatRules(c, ClashRules(c), Response(200, []), Response(200, [])).calls == calls;
  }

  lemma ClashDistinct(c: NatConstants)
    ensures DistinctKeys(ClashRules(c))
  {
    ClashRulesSorted(c);
  }

  lemma ClashMiddleUnmanaged(c: NatConstants)
    ensures c.minRule + 1 in UnmanagedNumbers(c, ClashRules(c))
  {
    ClashRulesManaged(c);
  }

  /** A call that sets a path below rule n's root does not leave rule n alone. */
  lemma SetBelowRootNotSpared(calls: seq<Call>, k: int, p: Path, n: int)
    requires 0 <= k < |calls| && calls[k] == SetCall([p]) && HasPrefix(p, Root(n))
    ensures !Spares(calls, n)
  {
    assert p in calls[k].paths;
  }

  /** The clash reorder deletes the second managed rule's root and re-sets its description one number lower. */
  lemma ClashReorderCalls(c: NatConstants)
    ensures var ok := Response(200, []);
      var r := ReorderManagedNatRules(c, ClashRules(c), ok, ok);
      r.ok &&
      r.calls == [DeleteCall([Root(c.minRule + 2)]), SetCall([Under(Root(c.minRule + 1), ["description", c.prefix + "eth2"])])]
  {
    var ok := Response(200, []);
    var rules := ClashRules(c);
    var m := c.minRule;
    var ms := [rules[0], rules[2]];
    var targets := DenseTargets(m, 2);
    ClashReorderIsRenumber(c);
    ClashSetPaths(c);
    RenumberCalls(ms, targets, ok, ok);
    var moved := [Root(m + 1) + ["description", c.prefix + "eth2"]];
    var r := Renumber(ms, targets, ok, ok);
    assert |r.calls| == 2 && r.ok;
    PairOf(r.calls, DeleteCall([Root(m + 2)]), SetCall(moved));
  }

  /** With the clash rules the reorder renumbers the two managed rules onto MIN and MIN + 1. */
  lemma ClashReorderIsRenumber(c: NatConstants)
    ensures var ok := Response(200, []);
      var rules := ClashRules(c);
      !Settled([rules[0], rules[2]], DenseTargets(c.minRule, 2)) &&
      ReorderManagedNatRules(c, rules, ok, ok) == Renumber([rules[0], rules[2]], DenseTargets(c.minRule, 2), ok, ok)
  {
    var rules := ClashRules(c);
    var ms := [rules[0], rules[2]];
    var targets := DenseTargets(c.minRule, 2);
    ClashRulesManaged(c);
    assert !Settled(ms, targets) by {
      assert ms[1].0 != targets[1];
    }
  }

  lemma PairOf<T>(s: seq<T>, a: T, b: T)
    requires |s| == 2 && s[0] == a && s[1] == b
    ensures s == [a, b]
  {
  }

  /**
   * The first k numbers from `start` on that are not in `used`: the numbers the
   * managed rules can be packed into without landing on an unmanaged rule.
   */
  function FreeSlots(used: set<int>, start: int, k: nat): (r: seq<int>)
    ensures |r| == k
    ensures forall i :: 0 <= i < k ==> r[i] >= start && r[i] !in used
    ensures forall i, j :: 0 <= i < j < k ==> r[i] < r[j]
    ensures (forall n :: n in used ==> n < start || n >= start + k) ==> forall i :: 0 <= i < k ==> r[i] == start + i
    decreases k, |used|
  {
    if k == 0 then []
    else if start in used then FreeSlots(used - {start}, start + 1, k)
    else [start] + FreeSlots(used, start + 1, k - 1)
  }

  /**
   * reorder_managed_nat_rules as evidently intended: the managed rules are
   * packed, in order, into the lowest numbers from MIN on that no unmanaged
   * rule uses.
   */
  function ReorderManagedNatRulesFixed(c: NatConstants, rules: RuleMap, del: Response, put: Response): (r: ManagedReorder)
    requires DistinctKeys(rules)
    ensures |SortedManaged(c, rules)| <= 1 ==> r == ManagedReorder(true, Option.None, [])
  {
    var ms := SortedManaged(c, rules);
    if |ms| <= 1 then ManagedReorder(true, Option.None, [])
    else Renumber(ms, FreeSlots(UnmanagedNumbers(c, rules), c.minRule, |ms|), del, put)
  }

  /** The intended reorder leaves every unmanaged rule alone. */
  lemma FixedReorderSparesUnmanaged(c: NatConstants, rules: RuleMap, del: Response, put: Response, n: int)
    requires DistinctKeys(rules) && n in UnmanagedNumbers(c, rules)
    ensures Spares(ReorderManagedNatRulesFixed(c, rules, del, put).calls, n)
  {
    var ms := SortedManaged(c, rules);
    ManagedNumbersAreNotUnmanaged(c, rules, n);
    if |ms| > 1 {
      RenumberSpares(ms, FreeSlots(UnmanagedNumbers(c, rules), c.minRule, |ms|), del, put, n);
    }
  }

  /** Without an unmanaged rule among MIN .. MIN + k - 1, the two reorders send the same calls. */
  lemma FixedAgreesWithoutClash(c: NatConstants, rules: RuleMap, del: Response, put: Response)
    requires DistinctKeys(rules)
    requires forall n :: n in UnmanagedNumbers(c, rules) ==>
      n < c.minRule || n >= c.minRule + |SortedManaged(c, rules)|
    ensures ReorderManagedNatRulesFixed(c, rules, del, put) == ReorderManagedNatRules(c, rules, del, put)
  {
    var k := |SortedManaged(c, rules)|;
    var u := UnmanagedNumbers(c, rules);
    assert forall n :: n in u ==> n < c.minRule || n >= c.minRule + k;
    var f, d := FreeSlots(u, c.minRule, k), DenseTargets(c.minRule, k);
    assert forall i :: 0 <= i < k ==> f[i] == d[i];
    assert f == d;
  }
}
