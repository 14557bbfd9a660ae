/**
 * The firewall rule handlers: listing a rule set, creating, updating,
 * reordering, deleting (with compaction of the remaining numbers) and toggling
 * rules. Each handler reads the rule set, checks the request, builds one batch
 * and hands it to the device; the device's answers are parameters.
 */
module FirewallViews {
  import opened Wrappers
  import opened Text
  import opened Numbers
  import opened ConfigTree
  import opened Paths
  import opened Sorting
  import opened Device
  import opened FirewallRules

  const PortProtocols: set<string> := {"tcp", "udp", "tcp_udp"}

  // The handlers' refusal messages.
  const ActionRequired := "Action is required for a firewall rule."
  const ActionRequiredUpdate := "Action is required for the rule."
  const PortsNeedProtocol := "Source/destination ports require protocol tcp, udp, or tcp_udp."
  const NumberNotInteger := "Rule number must be an integer."
  const OrderEmpty := "Order must be a non-empty list of rule numbers."
  const OrderLengthMismatch := "Order length does not match existing rules."
  const OrderNotCovering := "Order list must include every existing rule exactly once."

  function FirewallNotFound(name: string): string { "Firewall '" + name + "' not found." }
  function RuleMissing(name: string, number: int): string { "Rule " + IntStr(number) + " does not exist in firewall '" + name + "'." }
  function NumberTaken(n: int): string { "Rule number " + IntStr(n) + " already exists." }

  /** The "rule" container of a rule set, as ensure_mapping sees it. */
  function RuleMapOf(config: Entries): Entries
  {
    MappingOf(Get(config, "rule"))
  }

  // ---------------------------------------------------------------------------
  // Request values

  /** _parse_bool: null gives the default; a string counts when, stripped and lower-cased, it is true, 1, yes or on. */
  function ParseBool(value: Json, default: bool): (r: bool)
    ensures value.JNull? ==> r == default
    ensures value.JBool? ==> r == value.b
    ensures value.JNum? ==> (r <==> value.n != 0)
  {
    match value
    case JNull => default
    case JBool(b) => b
    case JNum(n) => n != 0
    case JStr(s) => Lower(Strip(s)) in {"true", "1", "yes", "on"}
  }

  /**
   * The toggle handler and the rule builder read a flag the same way, except that
   * _parse_bool strips the text first: they agree on every value but padded text.
   */
  lemma ParseBoolAgreesWithDisabledFlag(value: Json)
    requires value.JStr? ==> Strip(value.s) == value.s
    ensures ParseBool(value, false) == DisabledFlag(value)
  {
  }

  lemma PaddedFlagDiffers()
    ensures ParseBool(JStr(" on"), false) && !DisabledFlag(JStr(" on"))
  {
    PaddedOnStrips();
    LowerOn();
    assert Lower(" on")[0] == ' ';
  }

  lemma PaddedOnStrips()
    ensures Strip(" on") == "on"
  {
    var on := "on";
    assert " on"[0] == ' ' && " on"[1..] == on;
    assert on[0] == 'o' && on[|on| - 1] == 'n';
    assert TrimLeft(" on") == TrimLeft(on) == on;
    assert TrimRight(on) == on;
  }

  lemma LowerOn()
    ensures Lower("on") == "on"
  {
    var l := Lower("on");
    assert l[0] == 'o' && l[1] == 'n';
  }

  /** str(value) of a request value. */
  function JsonText(v: Json): string
  {
    match v
    case JStr(s) => s
    case JBool(b) => if b then "True" else "False"
    case JNum(n) => IntStr(n)
    case JNull => "None"
  }

  /** A number was supplied: the value is not null and its text is not blank. */
  predicate NumberGiven(v: Json)
  {
    !v.JNull? && Strip(JsonText(v)) != []
  }

  /** _ports_present: a manual port list on either side yields a token. */
  predicate PortsPresent(p: RulePayload)
  {
    SplitPortList(p.source.port) != [] || SplitPortList(p.destination.port) != []
  }

  /** _validate_ports_protocol: ports are only allowed with tcp, udp or tcp_udp. */
  predicate PortsProtocolValid(p: RulePayload)
  {
    !PortsPresent(p) || Lower(Strip(p.protocol)) in PortProtocols
  }

  // ---------------------------------------------------------------------------
  // Listing

  /** The sort key of _parse_firewall_rules: int(key) for a decimal key, else the key itself. */
  datatype RuleKey = Num(n: int) | Word(s: string)

  function RuleKeyOf(e: (string, Node)): RuleKey
  {
    if IsDigitString(e.0) then Num(DigitsValue(e.0)) else Word(e.0)
  }

  /** Integers by value, strings as Python orders them (a mix never gets compared: see MixedKeys). */
  function RuleKeyLe(a: RuleKey, b: RuleKey): bool
  {
    match (a, b)
    case (Num(x), Num(y)) => x <= y
    case (Word(x), Word(y)) => StrLe(x, y)
    case (Num(_), Word(_)) => true
    case (Word(_), Num(_)) => false
  }

  lemma RuleKeyLeTotal()
    ensures TotalPreorder(RuleKeyLe)
  {
    forall a, b ensures RuleKeyLe(a, b) || RuleKeyLe(b, a) {
      if a.Word? && b.Word? {
        StrLeTotalAt(a.s, b.s);
      }
    }
    forall a, b, c | RuleKeyLe(a, b) && RuleKeyLe(b, c) ensures RuleKeyLe(a, c) {
      if a.Word? && b.Word? && c.Word? {
        StrLeTransAt(a.s, b.s, c.s);
      }
    }
  }

  /** Some key is decimal and some is not: Python cannot order int against str and raises TypeError. */
  predicate MixedKeys(m: Entries)
  {
    (exists i :: 0 <= i < |m| && IsDigitString(m[i].0)) &&
    (exists j :: 0 <= j < |m| && !IsDigitString(m[j].0))
  }

  /** sorted(rule_map.items(), key=...): None when the sort raises. */
  function SortRuleEntries(m: Entries): (r: Option<Entries>)
    ensures r.None? <==> MixedKeys(m)
    ensures r.Some? ==> multiset(r.value) == multiset(m) && |r.value| == |m|
    ensures r.Some? ==> SortedBy(r.value, RuleKeyOf, RuleKeyLe)
  {
    if MixedKeys(m) then Option.None
    else
      RuleKeyLeTotal();
      Some(SortBy(m, RuleKeyOf, RuleKeyLe))
  }

  /** One row of the rule table. */
  datatype RuleRow = RuleRow(
    number: string, protocol: string, source: string, sourcePort: string,
    destination: string, destinationPort: string, action: string, description: string,
    disabled: bool)

  function OrElse(s: string, fallback: string): (r: string)
    ensures r != [] || fallback == []
  {
    if s == [] then fallback else s
  }

  /** The row of one rule: protocol, source and destination default to "any", ports to "". */
  function RuleRowOf(key: string, cfg: Node): (r: RuleRow)
    ensures r.number == key
    ensures r.protocol != [] && r.source != [] && r.destination != []
    ensures FlattenValue(Get(MappingOf(cfg), "protocol")) == [] ==> r.protocol == "any"
    ensures r.disabled <==> "disable" in Keys(MappingOf(cfg))
  {
    var d := MappingOf(cfg);
    var src := ExtractRulePorts(Map(MappingOf(Get(d, "source"))));
    var dst := ExtractRulePorts(Map(MappingOf(Get(d, "destination"))));
    RuleRow(key, OrElse(FlattenValue(Get(d, "protocol")), "any"),
      OrElse(src.0, "any"), src.1, OrElse(dst.0, "any"), dst.1,
      FlattenValue(Get(d, "action")), ExtractRuleDescription(Map(d)), "disable" in Keys(d))
  }

  /**
   * _parse_firewall_rules: one row per rule, in ascending rule-number order.
   * None stands for the TypeError of a rule set mixing decimal and other keys.
   */
  method ParseFirewallRules(config: Entries) returns (rows: Option<seq<RuleRow>>)
    ensures rows.None? <==> MixedKeys(RuleMapOf(config))
    ensures rows.Some? ==> |rows.value| == |RuleMapOf(config)|
    ensures rows.Some? ==>
      var sorted := SortRuleEntries(RuleMapOf(config)).value;
      forall i :: 0 <= i < |sorted| ==> rows.value[i] == RuleRowOf(sorted[i].0, sorted[i].1)
    ensures rows.Some? ==> forall i, j ::
      (0 <= i < j < |rows.value| && IsDigitString(rows.value[i].number) && IsDigitString(rows.value[j].number)) ==>
      DigitsValue(rows.value[i].number) <= DigitsValue(rows.value[j].number)
  {
    var ruleMap := EnsureMapping(Get(config, "rule"));
    var sorted := SortRuleEntries(ruleMap);
    if sorted.None? {
      return Option.None;
    }
    var es := sorted.value;
    var acc: seq<RuleRow> := [];
    var i := 0;
    while i < |es|
      invariant 0 <= i <= |es|
      invariant |acc| == i
      invariant forall k :: 0 <= k < i ==> acc[k] == RuleRowOf(es[k].0, es[k].1)
    {
      acc := acc + [RuleRowOf(es[i].0, es[i].1)];
      i := i + 1;
    }
    forall i, j | 0 <= i < j < |acc| && IsDigitString(acc[i].number) && IsDigitString(acc[j].number)
      ensures DigitsValue(acc[i].number) <= DigitsValue(acc[j].number)
    {
      assert RuleKeyLe(RuleKeyOf(es[i]), RuleKeyOf(es[j]));
    }
    rows := Some(acc);
  }

  /** Where a firewall sits in the zone matrix, when it is a zone-pair firewall. */
  datatype ZoneDetails = ZoneDetails(source: Option<string>, destination: Option<string>, zoneLabel: Option<string>)

  datatype Metadata = Metadata(
    name: string, description: string, defaultAction: string, ruleCount: nat,
    disabled: bool, zone: ZoneDetails)

  /** _parse_firewall_metadata: default action "accept" when none is set; disabled iff the set has "disable". */
  function ParseFirewallMetadata(name: string, config: Entries, zones: map<string, ZoneDetails>): (r: Metadata)
    ensures r.name == name && r.defaultAction != []
    ensures FlattenValue(Get(config, "default-action")) == [] ==> r.defaultAction == "accept"
    ensures FlattenValue(Get(config, "default-action")) != [] ==> r.defaultAction == FlattenValue(Get(config, "default-action"))
    ensures r.ruleCount == |RuleMapOf(config)|
    ensures r.disabled <==> "disable" in Keys(config)
    ensures name !in zones ==> r.zone == ZoneDetails(Option.None, Option.None, Option.None)
  {
    Metadata(name, FlattenValue(Get(config, "description")),
      OrElse(FlattenValue(Get(config, "default-action")), "accept"),
      |RuleMapOf(config)|, "disable" in Keys(config),
      if name in zones then zones[name] else ZoneDetails(Option.None, Option.None, Option.None))
  }

  // ---------------------------------------------------------------------------
  // Create and update

  datatype CreatePlan = CreatePlan(number: int, commands: seq<Path>)

  /** The protocol create sends: the stripped, lower-cased one, or tcp_udp when blank. */
  function CreateProtocol(protocol: string): (r: string)
    ensures r != [] && Strip(r) == r && Lower(r) == r
    ensures Strip(protocol) == [] ==> r == "tcp_udp"
  {
    var pr := Lower(Strip(protocol));
    if pr == [] then
      TcpUdpNormal();
      "tcp_udp"
    else
      LowerOfStripped(protocol);
      LowerIdempotent(Strip(protocol));
      pr
  }

  /**
   * create_firewall_rule: 404 for an unknown set, 400 without an action, with ports
   * under another protocol, for a number that is not an integer or is taken;
   * otherwise the next free number when none is given.
   */
  function CreateRule(name: string, config: Entries, p: RulePayload, requested: Json): (r: Checked<CreatePlan>)
    ensures config == [] ==> r == Refuse(404, FirewallNotFound(name))
    ensures r.Pass? ==> Strip(p.action) != []
    ensures r.Pass? ==> IntStr(r.value.number) !in Keys(RuleMapOf(config))
    ensures r.Pass? && !NumberGiven(requested) ==> r.value.number == NextRuleNumber(config, DefaultRuleStart)
    ensures r.Pass? && NumberGiven(requested) ==> ParseInt(JsonText(requested)) == Some(r.value.number)
    ensures r.Pass? ==> r.value.commands == BuildRuleSetCommands(name, r.value.number, p.(protocol := CreateProtocol(p.protocol)))
    ensures r.Pass? ==> PortsProtocolValid(p.(protocol := CreateProtocol(p.protocol)))
  {
    if config == [] then Refuse(404, FirewallNotFound(name))
    else if Strip(p.action) == [] then Refuse(400, ActionRequired)
    else
      var q := p.(protocol := CreateProtocol(p.protocol));
      if !PortsProtocolValid(q) then Refuse(400, PortsNeedProtocol)
      else if !NumberGiven(requested) then
        var n := NextRuleNumber(config, DefaultRuleStart);
        assert IntStr(n) !in Keys(RuleMapOf(config)) by {
          if IntStr(n) in Keys(RuleMapOf(config)) {
            NextRuleNumberIsFresh(config, DefaultRuleStart, IntStr(n));
            ParseIntStr(n);
          }
        }
        Pass(CreatePlan(n, BuildRuleSetCommands(name, n, q)))
      else
        match ParseInt(JsonText(requested))
        case None => Refuse(400, NumberNotInteger)
        case Some(n) =>
          if IntStr(n) in Keys(RuleMapOf(config)) then Refuse(400, NumberTaken(n))
          else Pass(CreatePlan(n, BuildRuleSetCommands(name, n, q)))
  }

  /** A created rule that carries ports also carries a port protocol path. */
  lemma CreatedPortsHaveProtocol(name: string, config: Entries, p: RulePayload, requested: Json)
    requires CreateRule(name, config, p, requested).Pass?
    requires PortsPresent(p)
    ensures var plan := CreateRule(name, config, p, requested).value;
      exists pr :: pr in PortProtocols && Under(RuleBase(name, plan.number), ["protocol", pr]) in plan.commands
  {
    var plan := CreateRule(name, config, p, requested).value;
    var pr := CreateProtocol(p.protocol);
    var q := p.(protocol := pr);
    assert PortsPresent(q);
    assert Under(RuleBase(name, plan.number), ["protocol", Strip(q.protocol)]) in plan.commands;
  }

  /** _current_rule_config: the merged body of rule `number`, {} when there is none. */
  function ExistingRule(config: Entries, number: int): Entries
  {
    MappingOf(Lookup(RuleMapOf(config), IntStr(number)).GetOr(Map([])))
  }

  datatype UpdatePlan = UpdatePlan(target: int, ops: seq<Op>)

  /** The payload update sends: the existing action and protocol fill in blank ones. */
  function UpdatePayload(p: RulePayload, existing: Entries): RulePayload
  {
    var action := if Strip(p.action) == [] then FlattenValue(Get(existing, "action")) else p.action;
    var proto := Lower(Strip(p.protocol));
    var protocol := if proto == [] then Lower(Strip(FlattenValue(Get(existing, "protocol")))) else proto;
    p.(action := action, protocol := protocol)
  }

  /** The update batch: delete the old rule, then set the new one under `target`. */
  function UpdateOpsOf(name: string, number: int, target: int, q: RulePayload): seq<Op>
  {
    Deletes(BuildRuleDeleteCommands(name, number)) + Sets(BuildRuleSetCommands(name, target, q))
  }

  /**
   * update_firewall_rule: one batch that deletes the old rule and sets the new one,
   * possibly under another number, which must then be free.
   */
  function UpdateRule(name: string, config: Entries, number: int, p: RulePayload, requested: Json): (r: Checked<UpdatePlan>)
    ensures r.Pass? ==> IntStr(number) in Keys(RuleMapOf(config))
    ensures r.Pass? ==> r.value.target == number || IntStr(r.value.target) !in Keys(RuleMapOf(config))
  {
    var ruleMap := RuleMapOf(config);
    if config == [] then Refuse(404, FirewallNotFound(name))
    else if IntStr(number) !in Keys(ruleMap) then
      Refuse(404, RuleMissing(name, number))
    else
      var existing := ExistingRule(config, number);
      var target := if NumberGiven(requested) then ParseInt(JsonText(requested)) else Some(number);
      if target.None? then Refuse(400, NumberNotInteger)
      else if target.value != number && IntStr(target.value) in Keys(ruleMap) then
        Refuse(400, NumberTaken(target.value))
      else if Strip(p.action) == [] && FlattenValue(Get(existing, "action")) == [] then
        Refuse(400, ActionRequiredUpdate)
      else
        var q := UpdatePayload(p, existing);
        if !PortsProtocolValid(q) then Refuse(400, PortsNeedProtocol)
        else
          Pass(UpdatePlan(target.value, UpdateOpsOf(name, number, target.value, q)))
  }

  /**
   * The refusals of the update handler, and the batch it sends when none
   * applies: the old rule deleted, then the merged payload set under the
   * target number, which is the old one unless another was asked for.
   */
  lemma UpdateRuleOutcome(name: string, config: Entries, number: int, p: RulePayload, requested: Json)
    ensures var r := UpdateRule(name, config, number, p, requested);
      (config == [] ==> r == Refuse(404, FirewallNotFound(name))) &&
      (config != [] && IntStr(number) !in Keys(RuleMapOf(config)) ==> r.Refuse? && r.code == 404) &&
      (r.Pass? && !NumberGiven(requested) ==> r.value.target == number) &&
      (r.Pass? ==> Strip(p.action) != [] || FlattenValue(Get(ExistingRule(config, number), "action")) != []) &&
      (r.Pass? ==> PortsProtocolValid(UpdatePayload(p, ExistingRule(config, number))))
  {
    UpdateRuleRefusesMissing(name, config, number, p, requested);
    UpdateRuleKeepsNumber(name, config, number, p, requested);
    UpdateRuleHasAction(name, config, number, p, requested);
    UpdateRulePortsValid(name, config, number, p, requested);
  }

  lemma UpdateRuleRefusesMissing(name: string, config: Entries, number: int, p: RulePayload, requested: Json)
    ensures var r := UpdateRule(name, config, number, p, requested);
      (config == [] ==> r == Refuse(404, FirewallNotFound(name))) &&
      (config != [] && IntStr(number) !in Keys(RuleMapOf(config)) ==> r.Refuse? && r.code == 404)
  {
  }

  lemma UpdateRuleKeepsNumber(name: string, config: Entries, number: int, p: RulePayload, requested: Json)
    ensures var r := UpdateRule(name, config, number, p, requested);
      r.Pass? && !NumberGiven(requested) ==> r.value.target == number
  {
  }

  lemma UpdateRuleHasAction(name: string, config: Entries, number: int, p: RulePayload, requested: Json)
    ensures var r := UpdateRule(name, config, number, p, requested);
      r.Pass? ==> Strip(p.action) != [] || FlattenValue(Get(ExistingRule(config, number), "action")) != []
  {
    if config != [] && IntStr(number) in Keys(RuleMapOf(config)) {
      var existing := ExistingRule(config, number);
      var target := if NumberGiven(requested) then ParseInt(JsonText(requested)) else Some(number);
      if target.Some? && !(target.value != number && IntStr(target.value) in Keys(RuleMapOf(config))) {
        if Strip(p.action) == [] && FlattenValue(Get(existing, "action")) == [] {
          assert UpdateRule(name, config, number, p, requested) == Refuse(400, ActionRequiredUpdate);
        }
      }
    }
  }

  lemma UpdateRulePortsValid(name: string, config: Entries, number: int, p: RulePayload, requested: Json)
    ensures var r := UpdateRule(name, config, number, p, requested);
      r.Pass? ==> PortsProtocolValid(UpdatePayload(p, ExistingRule(config, number)))
  {
    if config != [] && IntStr(number) in Keys(RuleMapOf(config)) {
      var existing := ExistingRule(config, number);
      var target := if NumberGiven(requested) then ParseInt(JsonText(requested)) else Some(number);
      if target.Some? && !(target.value != number && IntStr(target.value) in Keys(RuleMapOf(config))) {
        if !(Strip(p.action) == [] && FlattenValue(Get(existing, "action")) == []) {
          if !PortsProtocolValid(UpdatePayload(p, existing)) {
            assert UpdateRule(name, config, number, p, requested) == Refuse(400, PortsNeedProtocol);
          }
        }
      }
    }
  }

  lemma UpdateRuleBatch(name: string, config: Entries, number: int, p: RulePayload, requested: Json)
    requires UpdateRule(name, config, number, p, requested).Pass?
    ensures var r := UpdateRule(name, config, number, p, requested);
      r.value.ops == UpdateOpsOf(name, number, r.value.target, UpdatePayload(p, ExistingRule(config, number)))
  {
    var existing := ExistingRule(config, number);
    var target := if NumberGiven(requested) then ParseInt(JsonText(requested)) else Some(number);
    assert config != [];
    assert IntStr(number) in Keys(RuleMapOf(config));
    assert target.Some?;
    var q := UpdatePayload(p, existing);
    assert PortsProtocolValid(q);
    assert UpdateRule(name, config, number, p, requested) == Pass(UpdatePlan(target.value, UpdateOpsOf(name, number, target.value, q)));
  }

  /**
   * Applied to any store, the update batch leaves nothing of the old rule but what
   * it sets again, and every path of the new rule.
   */
  lemma UpdateReplacesRule(name: string, config: Entries, number: int, p: RulePayload, requested: Json, store: Store)
    requires UpdateRule(name, config, number, p, requested).Pass?
    ensures var plan := UpdateRule(name, config, number, p, requested).value;
      var sets := BuildRuleSetCommands(name, plan.target, UpdatePayload(p, ExistingRule(config, number)));
      DeletesFirst(plan.ops) &&
      Run(store, plan.ops) == Without(store, [RuleBase(name, number)]) + Elems(sets)
  {
    var plan := UpdateRule(name, config, number, p, requested).value;
    var sets := BuildRuleSetCommands(name, plan.target, UpdatePayload(p, ExistingRule(config, number)));
    UpdateRuleBatch(name, config, number, p, requested);
    DeletesThenSetsOrdered(BuildRuleDeleteCommands(name, number), sets);
    DeletesThenSets(store, BuildRuleDeleteCommands(name, number), sets);
  }

  // ---------------------------------------------------------------------------
  // Reorder

  /** The deep-copied body of the rule stored under `key` ({} when absent). */
  function Snapshot(ruleMap: Entries, key: string): Node
  {
    Map(MappingOf(Lookup(ruleMap, key).GetOr(Map([]))))
  }

  /** The roots of every existing rule, under their own keys. */
  function RuleRoots(name: string, keys: seq<string>): (r: seq<Path>)
    ensures |r| == |keys| && forall i :: 0 <= i < |keys| ==> r[i] == RulePath(name, keys[i])
  {
    seq(|keys|, i requires 0 <= i < |keys| => RulePath(name, keys[i]))
  }

  /** The set paths that re-create the rules of `ids` under the matching `slots`. */
  function Recreate(name: string, ruleMap: Entries, ids: seq<string>, slots: seq<string>): (r: seq<Path>)
    requires |ids| == |slots|
    ensures forall i :: 0 <= i < |ids| ==> forall c :: c in FlattenRuleConfig(Snapshot(ruleMap, ids[i]), name, slots[i]) ==> c in r
  {
    var batches := seq(|ids|, i requires 0 <= i < |ids| => FlattenRuleConfig(Snapshot(ruleMap, ids[i]), name, slots[i]));
    assert forall i :: 0 <= i < |ids| ==> batches[i] == FlattenRuleConfig(Snapshot(ruleMap, ids[i]), name, slots[i]);
    Concat(batches)
  }

  datatype ReorderPlan =
    | Unchanged
    | Reorder(targets: seq<string>, ops: seq<Op>, restore: seq<Op>)

  /**
   * reorder_firewall_rules: the order must be a non-empty list naming every
   * existing rule once; the rules are laid out on the existing numbers in
   * ascending order. The restore batch is sent only when the reorder fails.
   */
  function ReorderRules(name: string, order: Option<seq<string>>, config: Entries): (r: Checked<ReorderPlan>)
    ensures order.None? || order == Some([]) ==> r == Refuse(400, OrderEmpty)
    ensures order.Some? && order.value != [] && config == [] ==> r.Refuse? && r.code == 404
    ensures r.Pass? ==> order.Some? && |order.value| == |RuleMapOf(config)| && Elems(order.value) == Elems(Keys(RuleMapOf(config)))
    ensures r.Pass? ==> AllNumbers(Keys(RuleMapOf(config))).Some?
    ensures r.Pass? ==> (r.value.Unchanged? <==> order.value == IntStrs(SortedNumbers(Keys(RuleMapOf(config))).value))
    ensures r.Pass? && r.value.Reorder? ==>
      var ruleMap := RuleMapOf(config);
      r.value.targets == IntStrs(SortedNumbers(Keys(ruleMap)).value) &&
      r.value.ops == Deletes(RuleRoots(name, Keys(ruleMap))) + Sets(Recreate(name, ruleMap, order.value, r.value.targets)) &&
      r.value.restore == Sets(Recreate(name, ruleMap, Keys(ruleMap), Keys(ruleMap)))
  {
    if order.None? || order.value == [] then Refuse(400, OrderEmpty)
    else if config == [] then Refuse(404, FirewallNotFound(name))
    else
      var ruleMap := RuleMapOf(config);
      var keys := Keys(ruleMap);
      var ids := order.value;
      if |ids| != |ruleMap| then Refuse(400, OrderLengthMismatch)
      else if Elems(ids) != Elems(keys) then Refuse(400, OrderNotCovering)
      else
        match SortedNumbers(keys)
        case None => Refuse(500, "invalid literal for int()")
        case Some(ns) =>
          var targets := IntStrs(ns);
          if ids == targets then Pass(Unchanged)
          else
            Pass(Reorder(targets,
              Deletes(RuleRoots(name, keys)) + Sets(Recreate(name, ruleMap, ids, targets)),
              Sets(Recreate(name, ruleMap, keys, keys))))
  }

  /** An accepted order names each existing rule exactly once: it is a permutation of the keys. */
  lemma ReorderIsPermutation(name: string, order: Option<seq<string>>, config: Entries)
    requires ReorderRules(name, order, config).Pass?
    requires UniqueKeys(RuleMapOf(config))
    ensures NoDuplicates(order.value)
    ensures multiset(order.value) == multiset(Keys(RuleMapOf(config)))
  {
    var keys := Keys(RuleMapOf(config));
    assert NoDuplicates(keys);
    SameElemsPermutation(order.value, keys);
  }

  /**
   * The target numbers are the existing numbers, ascending: the reorder reuses the
   * numbers it found and does not restart them.
   */
  lemma ReorderKeepsNumbers(name: string, order: Option<seq<string>>, config: Entries)
    requires ReorderRules(name, order, config).Pass?
    ensures var ns := SortedNumbers(Keys(RuleMapOf(config))).value;
      multiset(ns) == multiset(AllNumbers(Keys(RuleMapOf(config))).value) &&
      (forall i, j :: 0 <= i < j < |ns| ==> ns[i] <= ns[j])
  {
  }

  /**
   * After a successful reorder, the old rule roots are gone with everything below
   * them, and the snapshot of order[i] is set in full under target[i].
   */
  lemma ReorderEffect(name: string, order: Option<seq<string>>, config: Entries, store: Store)
    requires ReorderRules(name, order, config).Pass? && ReorderRules(name, order, config).value.Reorder?
    ensures var plan := ReorderRules(name, order, config).value;
      var ruleMap := RuleMapOf(config);
      var after := Run(store, plan.ops);
      DeletesFirst(plan.ops) &&
      (forall q :: q in after && q !in Recreate(name, ruleMap, order.value, plan.targets) ==>
         q in store && forall k :: k in Keys(ruleMap) ==> !HasPrefix(q, RulePath(name, k))) &&
      (forall i :: 0 <= i < |order.value| ==>
         forall c :: c in FlattenRuleConfig(Snapshot(ruleMap, order.value[i]), name, plan.targets[i]) ==> c in after)
  {
    var plan := ReorderRules(name, order, config).value;
    var ruleMap := RuleMapOf(config);
    var roots := RuleRoots(name, Keys(ruleMap));
    var sets := Recreate(name, ruleMap, order.value, plan.targets);
    DeletesThenSetsOrdered(roots, sets);
    DeletesThenSets(store, roots, sets);
    forall q | q in Run(store, plan.ops) && q !in sets
      ensures q in store && forall k :: k in Keys(ruleMap) ==> !HasPrefix(q, RulePath(name, k))
    {
      assert q in Without(store, roots);
      forall k | k in Keys(ruleMap) ensures !HasPrefix(q, RulePath(name, k)) {
        var i :| 0 <= i < |Keys(ruleMap)| && Keys(ruleMap)[i] == k;
        assert roots[i] == RulePath(name, k);
      }
    }
  }

  const ReorderFailed := "Failed to apply reordered firewall rules."

  /** What reorder_firewall_rules did once its checks passed: the calls it made, its status and its error text. */
  datatype ReorderRun = ReorderRun(calls: seq<Call>, status: int, message: Option<string>)

  /**
   * The reorder handler run against the device's answer to the reorder batch:
   * a batch that fails is followed by the restore batch (its own answer is
   * ignored) and a 500 carrying the reorder's error.
   */
  function ReorderRunOf(name: string, order: Option<seq<string>>, config: Entries, resp: Response): (r: Checked<ReorderRun>)
    ensures ReorderRules(name, order, config).Refuse? <==> r.Refuse?
    ensures r.Refuse? ==> r == Refuse(ReorderRules(name, order, config).code, ReorderRules(name, order, config).message)
  {
    match ReorderRules(name, order, config)
    case Refuse(code, message) => Refuse(code, message)
    case Pass(Unchanged) => Pass(ReorderRun([], 200, Option.None))
    case Pass(Reorder(_, ops, restore)) => Pass(ReorderCalls(ops, restore, "reorder firewall rules in " + name, resp))
  }

  /** The reorder batch, then the restore batch when it failed and there is something to restore. */
  function ReorderCalls(ops: seq<Op>, restore: seq<Op>, context: string, resp: Response): ReorderRun
  {
    var o := ConfigureMultiple(ops, context, resp);
    if o.ok then ReorderRun([MultiCall(ops)], 200, Option.None)
    else
      var back := if restore != [] then [MultiCall(restore)] else [];
      ReorderRun([MultiCall(ops)] + back, 500, Some(o.message.GetOr(ReorderFailed)))
  }

  lemma ReorderCallsShape(ops: seq<Op>, restore: seq<Op>, context: string, resp: Response)
    requires ops != [] && restore != []
    ensures var run := ReorderCalls(ops, restore, context, resp);
      var failed := !(resp.error == [] && resp.status == 200);
      |run.calls| >= 1 && run.calls[0] == MultiCall(ops) &&
      (failed <==> |run.calls| == 2) &&
      (failed ==> run.calls[1] == MultiCall(restore) && run.status == 500 &&
                  run.message == ConfigureMultiple(ops, context, resp).message) &&
      (!failed ==> run.status == 200 && run.message.None?)
  {
  }

  /**
   * The restore batch is sent exactly when the reorder batch failed, right after
   * it; a successful reorder never restores; the failure answer is a 500 with
   * the reorder call's error text. An order already in place makes no call.
   */
  lemma ReorderRestoreOnlyAfterFailure(name: string, order: Option<seq<string>>, config: Entries, resp: Response)
    requires ReorderRules(name, order, config).Pass?
    ensures var plan := ReorderRules(name, order, config).value;
      var run := ReorderRunOf(name, order, config, resp).value;
      var failed := !(resp.error == [] && resp.status == 200);
      (plan.Unchanged? ==> run == ReorderRun([], 200, Option.None)) &&
      (plan.Reorder? ==>
         |run.calls| >= 1 && run.calls[0] == MultiCall(plan.ops) &&
         (failed <==> |run.calls| == 2) &&
         (failed ==> run.calls[1] == MultiCall(plan.restore) && run.status == 500 &&
                     run.message == ConfigureMultiple(plan.ops, "reorder firewall rules in " + name, resp).message) &&
         (!failed ==> run.status == 200 && run.message.None?))
  {
    var plan := ReorderRules(name, order, config).value;
    if plan.Reorder? {
      var ruleMap := RuleMapOf(config);
      var keys := Keys(ruleMap);
      assert keys != [] by {
        assert |order.value| == |ruleMap| && order.value != [];
      }
      assert plan.ops != [] by {
        assert |Deletes(RuleRoots(name, keys))| == |keys|;
      }
      RecreateNonEmpty(name, ruleMap, keys, keys);
      assert plan.restore != [];
      ReorderCallsShape(plan.ops, plan.restore, "reorder firewall rules in " + name, resp);
    }
  }

  // ---------------------------------------------------------------------------
  // Compaction after a delete

  /** The first number of the compacted sequence: max(1, hint), else int(first key), else 1. */
  function CompactBase(sorted: Entries, hint: Option<int>): (b: int)
    requires sorted != []
    ensures hint.Some? ==> b >= 1 && b >= hint.value && (b == 1 || b == hint.value)
    ensures hint.None? && ParseInt(sorted[0].0).Some? ==> b == ParseInt(sorted[0].0).value
    ensures hint.None? && ParseInt(sorted[0].0).None? ==> b == 1
  {
    match hint
    case Some(h) => if h > 1 then h else 1
    case None => ParseInt(sorted[0].0).GetOr(1)
  }

  /** The new keys: base, base+1, ... in sorted order. */
  function CompactTargets(n: nat, base: int): (r: seq<string>)
    ensures |r| == n && forall i :: 0 <= i < n ==> r[i] == IntStr(base + i)
  {
    seq(n, i requires 0 <= i < n => IntStr(base + i))
  }

  /** Some rule's key differs from its compacted key. */
  predicate Moves(sorted: Entries, base: int)
  {
    exists i :: 0 <= i < |sorted| && IntStr(base + i) != sorted[i].0
  }

  /** The compaction loop: (original, target, body) triples and whether any rule moves. */
  method CompactMapping(sorted: Entries, base: int) returns (mapping: seq<(string, string, Node)>, changed: bool)
    ensures |mapping| == |sorted|
    ensures forall i :: 0 <= i < |sorted| ==> mapping[i] == (sorted[i].0, IntStr(base + i), Map(MappingOf(sorted[i].1)))
    ensures changed <==> Moves(sorted, base)
  {
    mapping := [];
    changed := false;
    var index := 0;
    while index < |sorted|
      invariant 0 <= index <= |sorted|
      invariant |mapping| == index
      invariant forall i :: 0 <= i < index ==> mapping[i] == (sorted[i].0, IntStr(base + i), Map(MappingOf(sorted[i].1)))
      invariant changed <==> exists i :: 0 <= i < index && IntStr(base + i) != sorted[i].0
    {
      var target := IntStr(base + index);
      if target != sorted[index].0 {
        changed := true;
      }
      mapping := mapping + [(sorted[index].0, target, Map(MappingOf(sorted[index].1)))];
      index := index + 1;
    }
  }

  /** What _compact_rule_numbers did: crashed on a mixed key set, or the calls it made and its result. */
  datatype CompactRun = Crashed | Finished(calls: seq<Call>, ok: bool, message: Option<string>)

  /** The sorted rules with their bodies normalised, as the mapping carries them. */
  function Bodies(sorted: Entries): (r: Entries)
    ensures |r| == |sorted| && forall i :: 0 <= i < |sorted| ==> r[i] == (sorted[i].0, Map(MappingOf(sorted[i].1)))
  {
    seq(|sorted|, i requires 0 <= i < |sorted| => (sorted[i].0, Map(MappingOf(sorted[i].1))))
  }

  /**
   * The specification of compaction: nothing when no rule moves; otherwise delete
   * every rule, set every rule at its new number, and re-set the originals when
   * that set fails.
   */
  function CompactSpec(name: string, config: Entries, hint: Option<int>, del: Response, put: Response, restore: Response): CompactRun
  {
    var ruleMap := RuleMapOf(config);
    if ruleMap == [] then Finished([], true, Option.None)
    else match SortRuleEntries(ruleMap)
      case None => Crashed
      case Some(sorted) =>
        var base := CompactBase(sorted, hint);
        if !Moves(sorted, base) then Finished([], true, Option.None)
        else
          var context := "compact firewall rules in " + name;
          var keys := Keys(sorted);
          var bodies := Bodies(sorted);
          var deletes := RuleRoots(name, keys);
          var sets := Recreate(name, bodies, keys, CompactTargets(|sorted|, base));
          CompactCalls(deletes, sets, Recreate(name, bodies, keys, keys), context, del, put)
  }

  /** The delete of every old number, then the set of the new ones, then the restore if that set failed. */
  function CompactCalls(deletes: seq<Path>, sets: seq<Path>, back: seq<Path>, context: string, del: Response, put: Response): CompactRun
  {
    var d := ConfigureDelete(deletes, context, del);
    if !d.ok then Finished([DeleteCall(deletes)], false, d.message)
    else
      var s := ConfigureSet(sets, context, put);
      if s.ok then Finished([DeleteCall(deletes), SetCall(sets)], true, Option.None)
      else Finished([DeleteCall(deletes), SetCall(sets), SetCall(back)], false, s.message)
  }

  /**
   * With something to delete and something to set, the compaction calls are
   * the delete, then the set when the delete succeeded, then the restore
   * exactly when the delete succeeded and the set failed.
   */
  lemma CompactCallsShape(deletes: seq<Path>, sets: seq<Path>, back: seq<Path>, context: string, del: Response, put: Response)
    requires deletes != [] && sets != []
    ensures var run := CompactCalls(deletes, sets, back, context, del, put);
      run.Finished? && 1 <= |run.calls| <= 3 && run.calls[0] == DeleteCall(deletes) &&
      (|run.calls| > 1 ==> run.calls[1] == SetCall(sets)) &&
      (|run.calls| == 1 <==> !(del.error == [] && del.status == 200)) &&
      (|run.calls| == 3 <==> (del.error == [] && del.status == 200) && !(put.error == [] && put.status == 200)) &&
      (|run.calls| == 3 ==> run.calls[2] == SetCall(back)) &&
      (run.ok <==> |run.calls| == 2)
  {
  }

  /** The original keys, the new keys and the normalised bodies of the compaction mapping. */
  method MappingColumns(sorted: Entries, base: int, mapping: seq<(string, string, Node)>)
    returns (originals: seq<string>, targets: seq<string>, bodies: Entries)
    requires |mapping| == |sorted|
    requires forall i :: 0 <= i < |sorted| ==> mapping[i] == (sorted[i].0, IntStr(base + i), Map(MappingOf(sorted[i].1)))
    ensures originals == Keys(sorted) && targets == CompactTargets(|sorted|, base) && bodies == Bodies(sorted)
  {
    originals := seq(|mapping|, i requires 0 <= i < |mapping| => mapping[i].0);
    targets := seq(|mapping|, i requires 0 <= i < |mapping| => mapping[i].1);
    bodies := seq(|mapping|, i requires 0 <= i < |mapping| => (mapping[i].0, mapping[i].2));
    assert originals == Keys(sorted);
    assert targets == CompactTargets(|sorted|, base);
    assert bodies == Bodies(sorted);
  }

  /** _compact_rule_numbers as the handler runs it. */
  method CompactRuleNumbers(name: string, config: Entries, hint: Option<int>, del: Response, put: Response, restore: Response)
    returns (run: CompactRun)
    ensures run == CompactSpec(name, config, hint, del, put, restore)
  {
    var ruleMap := EnsureMapping(Get(config, "rule"));
    if ruleMap == [] {
      return Finished([], true, Option.None);
    }
    var sorted := SortRuleEntries(ruleMap);
    if sorted.None? {
      return Crashed;
    }
    var base := CompactBase(sorted.value, hint);
    var mapping, changed := CompactMapping(sorted.value, base);
    if !changed {
      return Finished([], true, Option.None);
    }
    var context := "compact firewall rules in " + name;
    var originals, targets, bodies := MappingColumns(sorted.value, base, mapping);
    var deletes := RuleRoots(name, originals);
    var sets := Recreate(name, bodies, originals, targets);
    var d := ConfigureDelete(deletes, context, del);
    if !d.ok {
      return Finished([DeleteCall(deletes)], false, d.message);
    }
    var s := ConfigureSet(sets, context, put);
    if !s.ok {
      var back := Recreate(name, bodies, originals, originals);
      return Finished([DeleteCall(deletes), SetCall(sets), SetCall(back)], false, s.message);
    }
    run := Finished([DeleteCall(deletes), SetCall(sets)], true, Option.None);
  }

  /**
   * Compaction sends nothing when every rule already sits at base+index; when one
   * moves it first deletes every rule, then sets every rule at base+index, densely.
   */
  lemma CompactAllOrNothing(name: string, config: Entries, hint: Option<int>, del: Response, put: Response, restore: Response)
    requires RuleMapOf(config) != [] && !MixedKeys(RuleMapOf(config))
    ensures var sorted := SortRuleEntries(RuleMapOf(config)).value;
      var base := CompactBase(sorted, hint);
      var run := CompactSpec(name, config, hint, del, put, restore);
      run.Finished? &&
      (!Moves(sorted, base) <==> run.calls == []) &&
      (Moves(sorted, base) ==>
         run.calls[0] == DeleteCall(RuleRoots(name, Keys(sorted))) &&
         |run.calls[0].paths| == |RuleMapOf(config)| &&
         (|run.calls| > 1 ==> run.calls[1] == SetCall(Recreate(name, Bodies(sorted), Keys(sorted), CompactTargets(|sorted|, base)))) &&
         (|run.calls| == 3 ==> !run.ok && run.calls[2] == SetCall(Recreate(name, Bodies(sorted), Keys(sorted), Keys(sorted)))))
  {
    var ruleMap := RuleMapOf(config);
    var sorted := SortRuleEntries(ruleMap).value;
    var base := CompactBase(sorted, hint);
    if Moves(sorted, base) {
      var keys := Keys(sorted);
      var deletes := RuleRoots(name, keys);
      var sets := Recreate(name, Bodies(sorted), keys, CompactTargets(|sorted|, base));
      assert |deletes| == |sorted| == |ruleMap|;
      RecreateNonEmpty(name, Bodies(sorted), keys, CompactTargets(|sorted|, base));
      CompactCallsShape(deletes, sets, Recreate(name, Bodies(sorted), keys, keys), "compact firewall rules in " + name, del, put);
    }
  }

  /**
   * A restore runs only after the set of the new numbers failed, and a failed
   * delete stops compaction before anything is set.
   */
  lemma CompactRestoreOnlyAfterFailedSet(name: string, config: Entries, hint: Option<int>, del: Response, put: Response, restore: Response)
    requires CompactSpec(name, config, hint, del, put, restore).Finished?
    ensures var run := CompactSpec(name, config, hint, del, put, restore);
      |run.calls| <= 3 &&
      (|run.calls| == 3 <==> run.calls != [] && (del.error == [] && del.status == 200) && !(put.error == [] && put.status == 200)) &&
      (|run.calls| == 1 ==> !run.ok)
  {
    var ruleMap := RuleMapOf(config);
    if ruleMap != [] && SortRuleEntries(ruleMap).Some? {
      var sorted := SortRuleEntries(ruleMap).value;
      var base := CompactBase(sorted, hint);
      if Moves(sorted, base) {
        var keys := Keys(sorted);
        var sets := Recreate(name, Bodies(sorted), keys, CompactTargets(|sorted|, base));
        assert RuleRoots(name, keys) != [];
        RecreateNonEmpty(name, Bodies(sorted), keys, CompactTargets(|sorted|, base));
        CompactCallsShape(RuleRoots(name, keys), sets, Recreate(name, Bodies(sorted), keys, keys),
                          "compact firewall rules in " + name, del, put);
      }
    }
  }

  /** Re-creating at least one rule sets at least one path. */
  lemma RecreateNonEmpty(name: string, ruleMap: Entries, ids: seq<string>, slots: seq<string>)
    requires |ids| == |slots| && ids != []
    ensures Recreate(name, ruleMap, ids, slots) != []
  {
    var sets := Recreate(name, ruleMap, ids, slots);
    assert RulePath(name, slots[0]) in FlattenRuleConfig(Snapshot(ruleMap, ids[0]), name, slots[0]);
  }

  /** The delete handler's hint: the smallest int(key) before the delete, None when a key is not an integer. */
  function DeleteHint(ruleMap: Entries): (r: Option<int>)
    ensures ruleMap == [] ==> r.None?
    ensures r.Some? ==> AllNumbers(Keys(ruleMap)).Some? && r.value in AllNumbers(Keys(ruleMap)).value
    ensures r.Some? ==> forall k :: k in Keys(ruleMap) ==> ParseInt(k).Some? && r.value <= ParseInt(k).value
    ensures ruleMap != [] && AllNumbers(Keys(ruleMap)).Some? ==> r.Some?
  {
    if ruleMap == [] then Option.None
    else match AllNumbers(Keys(ruleMap))
      case None => Option.None
      case Some(ns) =>
        var m := MinOf(ns);
        assert forall k :: k in Keys(ruleMap) ==> ParseInt(k).Some? && m <= ParseInt(k).value by {
          forall k | k in Keys(ruleMap) ensures ParseInt(k).Some? && m <= ParseInt(k).value {
            var i :| 0 <= i < |Keys(ruleMap)| && Keys(ruleMap)[i] == k;
            assert ParseInt(k) == Some(ns[i]);
            assert ns[i] in ns;
          }
        }
        Some(m)
  }

  /**
   * Deleting the lowest rule leaves a gap at the front: the first remaining rule
   * is numbered above the pre-deletion minimum, so compaction from that hint moves it.
   */
  lemma DeletingLowestRuleMoves(sorted: Entries, h: int, k: int)
    requires sorted != [] && h >= 1
    requires ParseInt(sorted[0].0) == Some(k) && k > h
    ensures Moves(sorted, CompactBase(sorted, Some(h)))
  {
    ParseIntStr(h);
    assert IntStr(h + 0) != sorted[0].0;
  }

  datatype DeleteRun = DeleteRun(status: int, message: Option<string>, deleteCall: seq<Path>, compaction: CompactRun)

  /**
   * delete_firewall_rule: 404s, the delete of the rule, then compaction of what the
   * device holds afterwards (`after`) starting from the pre-deletion minimum.
   */
  function DeleteRule(name: string, config: Entries, number: int, del: Response, after: Entries,
                      cdel: Response, cput: Response, crestore: Response): (r: Checked<DeleteRun>)
    ensures config == [] ==> r.Refuse? && r.code == 404
    ensures config != [] && IntStr(number) !in Keys(RuleMapOf(config)) ==> r.Refuse? && r.code == 404
    ensures r.Pass? ==> r.value.deleteCall == [RuleBase(name, number)]
    ensures r.Pass? && r.value.status == 200 ==>
      r.value.compaction == CompactSpec(name, after, DeleteHint(RuleMapOf(config)), cdel, cput, crestore)
    ensures r.Pass? && !(del.error == [] && del.status == 200) ==> r.value.status == 500 && r.value.compaction == Finished([], false, Option.None)
  {
    if config == [] then Refuse(404, FirewallNotFound(name))
    else if IntStr(number) !in Keys(RuleMapOf(config)) then
      Refuse(404, RuleMissing(name, number))
    else
      var hint := DeleteHint(RuleMapOf(config));
      var paths := BuildRuleDeleteCommands(name, number);
      var d := ConfigureDelete(paths, "delete firewall rule " + IntStr(number) + " in " + name, del);
      if !d.ok then Pass(DeleteRun(500, d.message, paths, Finished([], false, Option.None)))
      else
        var c := CompactSpec(name, after, hint, cdel, cput, crestore);
        var status := if c.Finished? && c.ok then 200 else 500;
        Pass(DeleteRun(status, if c.Finished? then c.message else Option.None, paths, c))
  }

  // ---------------------------------------------------------------------------
  // Toggle

  datatype ToggleResult = NoChange | Toggle(call: Call)

  /**
   * toggle_firewall_rule: the requested state defaults to disabled; asking for the
   * state the rule already has sends nothing, otherwise one call flips it.
   */
  function ToggleRule(name: string, config: Entries, number: int, disabled: Json): (r: Checked<ToggleResult>)
    ensures config == [] ==> r.Refuse? && r.code == 404
    ensures config != [] && ExistingRule(config, number) == [] ==> r.Refuse? && r.code == 404
    ensures r.Pass? ==> (r.value.NoChange? <==> ParseBool(disabled, true) == ("disable" in Keys(ExistingRule(config, number))))
    ensures r.Pass? && r.value.Toggle? && ParseBool(disabled, true) ==> r.value.call == SetCall([RuleBase(name, number) + ["disable"]])
    ensures r.Pass? && r.value.Toggle? && !ParseBool(disabled, true) ==> r.value.call == DeleteCall([RuleBase(name, number) + ["disable"]])
  {
    var flag := ParseBool(disabled, true);
    if config == [] then Refuse(404, FirewallNotFound(name))
    else
      var rule := ExistingRule(config, number);
      if rule == [] then Refuse(404, RuleMissing(name, number))
      else if flag == ("disable" in Keys(rule)) then Pass(NoChange)
      else
        var paths := BuildRuleDisablePaths(name, number, flag);
        if flag then Pass(Toggle(SetCall(paths.0))) else Pass(Toggle(DeleteCall(paths.1)))
  }
}
