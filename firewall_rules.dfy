/**
 * The firewall rule helpers: reading rules out of the configuration tree,
 * choosing the next rule number, building the set/delete batches for one
 * rule, and flattening a rule subtree into the paths that re-create it.
 */
module FirewallRules {
  import opened Wrappers
  import opened Text
  import opened Numbers
  import opened ConfigTree
  import opened Paths

  /** Rule number handed out when a rule set has no numbered rule yet. */
  const DefaultRuleStart := 100

  // ---------------------------------------------------------------------------
  // Flattening a subtree into display text

  /** flatten_value: a one-line rendering of a subtree for the rule table. */
  function FlattenValue(n: Node): string
    decreases n, 1
  {
    match n
    case None => ""
    case Leaf(s) => s
    case List(_) => Join(NonEmpty(ItemTexts(n)), ", ")
    case Map(_) => Join(NonEmpty(EntryTexts(n)), ", ")
  }

  function ItemTexts(n: Node): (r: seq<string>)
    requires n.List?
    ensures |r| == |n.items|
    decreases n, 0
  {
    seq(|n.items|, i requires 0 <= i < |n.items| => FlattenValue(n.items[i]))
  }

  /** One part per entry: the bare text for a scalar address or port, else key=text; empty text gives no part. */
  function EntryTexts(n: Node): (r: seq<string>)
    requires n.Map?
    ensures |r| == |n.entries|
    decreases n, 0
  {
    seq(|n.entries|, i requires 0 <= i < |n.entries| =>
      var key := n.entries[i].0;
      var flat := FlattenValue(n.entries[i].1);
      if flat == [] then []
      else if (key == "address" || key == "port") && !n.entries[i].1.Map? then flat
      else key + "=" + flat)
  }

  /** Some leaf below `n` holds a non-empty string. */
  predicate HasText(n: Node)
  {
    match n
    case None => false
    case Leaf(s) => s != []
    case List(xs) => exists i :: 0 <= i < |xs| && HasText(xs[i])
    case Map(m) => exists i :: 0 <= i < |m| && HasText(m[i].1)
  }

  /** The rendering is empty exactly when there is no text anywhere below the node. */
  lemma {:induction false} FlattenValueEmptyIff(n: Node)
    ensures FlattenValue(n) == [] <==> !HasText(n)
    decreases n
  {
    match n
    case None =>
    case Leaf(_) =>
    case List(xs) =>
      var parts := ItemTexts(n);
      forall i | 0 <= i < |xs| ensures parts[i] == [] <==> !HasText(xs[i]) {
        FlattenValueEmptyIff(xs[i]);
      }
      JoinNonEmpty(NonEmpty(parts), ", ");
    case Map(m) =>
      var parts := EntryTexts(n);
      forall i | 0 <= i < |m| ensures parts[i] == [] <==> !HasText(m[i].1) {
        FlattenValueEmptyIff(m[i].1);
      }
      JoinNonEmpty(NonEmpty(parts), ", ");
  }

  // ---------------------------------------------------------------------------
  // Reading one rule

  /** Python `a or b` on configuration values. */
  function PyOr(a: Node, b: Node): Node
  {
    if Truthy(a) then a else b
  }

  /** Group kinds an address may name, in the order they are tried. */
  const AddressGroupTypes: seq<string> := ["address-group", "network-group", "mac-group", "domain-group",
    "dynamic-group", "remote-group", "ipv6-address-group", "ipv6-network-group"]

  /** The first dynamic-group address under add-address-to-group (source side first), or "". */
  function DynamicGroupAddress(block: Node): (r: string)
    ensures r != [] ==> StartsWith(r, "[group:dynamic-group:")
    ensures r != [] ==> block.Map? && Get(block.entries, "add-address-to-group").Map?
  {
    if !block.Map? then ""
    else
      var add := Get(block.entries, "add-address-to-group");
      if add.Map? then DynamicGroupFrom(add.entries, ["source-address", "destination-address"]) else ""
  }

  function DynamicGroupFrom(m: Entries, keys: seq<string>): (r: string)
    ensures r != [] ==> StartsWith(r, "[group:dynamic-group:")
  {
    if keys == [] then ""
    else
      var side := Get(m, keys[0]);
      if side.Map? && Truthy(Get(side.entries, "address-group")) then
        var r := "[group:dynamic-group:" + FlattenValue(Get(side.entries, "address-group")) + "]";
        assert r[..|"[group:dynamic-group:"|] == "[group:dynamic-group:";
        r
      else DynamicGroupFrom(m, keys[1..])
  }

  /** The first group kind of `kinds` with a truthy value in the group block. */
  function FirstGroup(g: Entries, kinds: seq<string>): (r: Option<(string, Node)>)
    ensures r.Some? ==> r.value.0 in kinds && Truthy(r.value.1) && r.value.1 == Get(g, r.value.0)
    ensures r.None? ==> forall k :: k in kinds ==> !Truthy(Get(g, k))
  {
    if kinds == [] then Option.None
    else if Truthy(Get(g, kinds[0])) then Some((kinds[0], Get(g, kinds[0])))
    else FirstGroup(g, kinds[1..])
  }

  /** The port text when no port group applies; an empty-rendering port dict is rendered again (to the same text). */
  function PortText(m: Entries, entry: Node): string
  {
    var port := FlattenValue(entry);
    if port == [] && Get(m, "port").Map? then FlattenValue(Get(m, "port")) else port
  }

  /**
   * Rendering the port entry again when it came out empty changes nothing: the
   * entry is `port` itself, or `port` is falsy and so at most an empty dict.
   */
  lemma PortTextFlat(m: Entries, other: Node)
    ensures PortText(m, PyOr(Get(m, "port"), other)) == FlattenValue(PyOr(Get(m, "port"), other))
  {
    var port := Get(m, "port");
    if !Truthy(port) && port.Map? {
      assert port.entries == [];
      assert EntryTexts(port) == [];
    }
  }

  /**
   * extract_rule_ports: the (address, port) shown for a source or destination block.
   * A dynamic-group address wins over everything and leaves the port empty; then a
   * named address group; then the plain address. A port group wins over plain ports.
   */
  function ExtractRulePorts(block: Node): (r: (string, string))
    ensures !block.Map? ==> r == ("", "")
    ensures DynamicGroupAddress(block) != [] ==> r == (DynamicGroupAddress(block), "")
    ensures block.Map? && DynamicGroupAddress(block) == [] && Get(block.entries, "group").Map? ==>
      match FirstGroup(Get(block.entries, "group").entries, AddressGroupTypes)
      case Some(found) => r.0 == "[group:" + found.0 + ":" + FlattenValue(found.1) + "]"
      case None => r.0 == FlattenValue(Get(block.entries, "address"))
    ensures block.Map? && DynamicGroupAddress(block) == [] && !Get(block.entries, "group").Map? ==>
      r.0 == FlattenValue(Get(block.entries, "address"))
    ensures block.Map? && DynamicGroupAddress(block) == [] ==>
      var m := block.entries;
      var g := Get(m, "group");
      r.1 == if g.Map? && Truthy(Get(g.entries, "port-group")) then
               "[group:port-group:" + FlattenValue(Get(g.entries, "port-group")) + "]"
             else if g.Map? then FlattenValue(PyOr(Get(m, "port"), Get(m, "port-name")))
             else FlattenValue(PyOr(PyOr(Get(m, "port"), Get(m, "port-name")), Get(m, "port-group")))
  {
    if !block.Map? then ("", "")
    else
      var m := block.entries;
      var dynamic := DynamicGroupAddress(block);
      if dynamic != [] then (dynamic, "")
      else
        var g := Get(m, "group");
        if g.Map? then
          var address := match FirstGroup(g.entries, AddressGroupTypes)
            case Some(found) => "[group:" + found.0 + ":" + FlattenValue(found.1) + "]"
            case None => FlattenValue(Get(m, "address"));
          PortTextFlat(m, Get(m, "port-name"));
          var portGroup := Get(g.entries, "port-group");
          var port := if Truthy(portGroup) then "[group:port-group:" + FlattenValue(portGroup) + "]"
            else PortText(m, PyOr(Get(m, "port"), Get(m, "port-name")));
          (address, port)
        else
          PortTextFlat(m, PyOr(Get(m, "port-name"), Get(m, "port-group")));
          assert PyOr(PyOr(Get(m, "port"), Get(m, "port-name")), Get(m, "port-group"))
              == PyOr(Get(m, "port"), PyOr(Get(m, "port-name"), Get(m, "port-group")));
          (FlattenValue(Get(m, "address")),
           PortText(m, PyOr(PyOr(Get(m, "port"), Get(m, "port-name")), Get(m, "port-group"))))
  }

  /** extract_rule_description: "" when absent or null, the first key of a dict, else the text. */
  function ExtractRuleDescription(rule: Node): (r: string)
    ensures !rule.Map? || Get(rule.entries, "description").None? ==> r == ""
    ensures rule.Map? && Get(rule.entries, "description").Leaf? ==> r == Get(rule.entries, "description").text
    ensures rule.Map? && Get(rule.entries, "description").Map? ==>
      var keys := Keys(Get(rule.entries, "description").entries);
      r == if keys == [] then "" else keys[0]
    ensures rule.Map? && Get(rule.entries, "description").List? ==> r == Str(Get(rule.entries, "description"))
  {
    if !rule.Map? then ""
    else
      var d := Get(rule.entries, "description");
      match d
      case None => ""
      case Map(m) => if m == [] then "" else m[0].0
      case _ => Str(d)
  }

  // ---------------------------------------------------------------------------
  // Rule numbers

  /** The keys that parse as integers, as integers, in key order. */
  function RuleNumbers(keys: seq<string>): (r: seq<int>)
    ensures forall x :: x in r <==> exists k :: k in keys && ParseInt(k) == Some(x)
  {
    if keys == [] then []
    else
      var init := RuleNumbers(keys[..|keys| - 1]);
      var last := keys[|keys| - 1];
      assert forall k :: k in keys <==> k in keys[..|keys| - 1] || k == last;
      match ParseInt(last)
      case Some(v) => init + [v]
      case None => init
  }

  /** extract_rule_numbers: the integer keys of the merged "rule" container. */
  method ExtractRuleNumbers(config: Entries) returns (numbers: seq<int>)
    ensures numbers == RuleNumbers(Keys(MappingOf(Get(config, "rule"))))
  {
    var ruleMap := EnsureMapping(Get(config, "rule"));
    var keys := Keys(ruleMap);
    numbers := [];
    var i := 0;
    while i < |ruleMap|
      invariant 0 <= i <= |ruleMap|
      invariant numbers == RuleNumbers(keys[..i])
    {
      assert keys[..i + 1][..i] == keys[..i];
      match ParseInt(ruleMap[i].0) {
        case Some(v) => numbers := numbers + [v];
        case None =>
      }
      i := i + 1;
    }
    assert keys[..i] == keys;
  }

  /** One past the largest number, or `start` when there is none. */
  function NextNumber(ns: seq<int>, start: int): (r: int)
    ensures ns == [] ==> r == start
    ensures ns != [] ==> r - 1 in ns && forall x :: x in ns ==> x < r
    ensures r !in ns
  {
    if ns == [] then start else MaxOf(ns) + 1
  }

  /** next_rule_number: `start` when no key of the rule container is an integer, else one past the largest. */
  function NextRuleNumber(config: Entries, start: int): int
  {
    NextNumber(RuleNumbers(Keys(MappingOf(Get(config, "rule")))), start)
  }

  /** The number handed out is never the number of a rule that already exists. */
  lemma NextRuleNumberIsFresh(config: Entries, start: int, key: string)
    requires key in Keys(MappingOf(Get(config, "rule")))
    ensures ParseInt(key) != Some(NextRuleNumber(config, start))
  {
    var ns := RuleNumbers(Keys(MappingOf(Get(config, "rule"))));
    if ParseInt(key).Some? {
      assert ParseInt(key).value in ns;
    }
  }

  // ---------------------------------------------------------------------------
  // Port lists

  const Quotes: set<char> := {'\'', '"'}

  /** One comma-separated piece: whitespace stripped, then surrounding quotes stripped. */
  function PortToken(piece: string): string
  {
    StripChars(Strip(piece), Quotes)
  }

  /** The tokens kept from the comma-separated pieces, in order. */
  function PortTokens(pieces: seq<string>): (r: seq<string>)
    ensures forall t :: t in r ==> t != []
    ensures (forall p :: p in pieces ==> ',' !in p) ==> forall t :: t in r ==> ',' !in t
  {
    if pieces == [] then []
    else
      var init := PortTokens(pieces[..|pieces| - 1]);
      var piece := pieces[|pieces| - 1];
      assert forall p :: p in pieces[..|pieces| - 1] ==> p in pieces;
      assert ',' in PortToken(piece) ==> ',' in piece;
      if Strip(piece) == [] || PortToken(piece) == [] then init else init + [PortToken(piece)]
  }

  /** split_port_list: [] for a missing or empty value, else the non-empty tokens. */
  function SplitPortList(value: string): (r: seq<string>)
    ensures value == [] ==> r == []
    ensures forall t :: t in r ==> t != [] && ',' !in t
  {
    if value == [] then []
    else
      PortTokens(Split(value, ','))
  }

  lemma PortTokensSnoc(pieces: seq<string>, i: int)
    requires 0 <= i < |pieces|
    ensures PortTokens(pieces[..i + 1]) == PortTokens(pieces[..i]) +
      (if Strip(pieces[i]) == [] || PortToken(pieces[i]) == [] then [] else [PortToken(pieces[i])])
  {
    assert pieces[..i + 1][..i] == pieces[..i];
  }

  /** The loop of split_port_list, one comma-separated piece at a time. */
  method SplitPortListLoop(value: string) returns (items: seq<string>)
    ensures items == SplitPortList(value)
  {
    if value == [] {
      return [];
    }
    var pieces := Split(value, ',');
    items := [];
    var i := 0;
    while i < |pieces|
      invariant 0 <= i <= |pieces|
      invariant items == PortTokens(pieces[..i])
    {
      PortTokensSnoc(pieces, i);
      var token := Strip(pieces[i]);
      if token != [] {
        token := StripChars(token, Quotes);
        if token != [] {
          items := items + [token];
        }
      }
      i := i + 1;
    }
    assert pieces[..i] == pieces;
  }

  /** A token as the rule editor writes it: non-empty, no comma, no surrounding blanks or quotes. */
  predicate CleanToken(t: string)
  {
    t != [] && ',' !in t && !IsSpace(t[0]) && !IsSpace(t[|t| - 1]) && t[0] !in Quotes && t[|t| - 1] !in Quotes
  }

  lemma CleanTokenKept(t: string)
    requires CleanToken(t)
    ensures Strip(t) == t && PortToken(t) == t
  {
    StripUnchanged(t);
  }

  lemma {:induction false} PortTokensClean(ts: seq<string>)
    requires forall i :: 0 <= i < |ts| ==> CleanToken(ts[i])
    ensures PortTokens(ts) == ts
  {
    if ts != [] {
      var n := |ts| - 1;
      var init, last := ts[..n], ts[n];
      assert forall i :: 0 <= i < |init| ==> init[i] == ts[i];
      PortTokensClean(init);
      assert CleanToken(last);
      CleanTokenKept(last);
      PortTokensSnoc(ts, n);
      assert ts[..n + 1] == ts;
      assert PortTokens(ts) == init + [last];
      InitLast(ts);
    }
  }

  /** Joining clean tokens with "," and splitting the result gives the tokens back. */
  lemma SplitPortListJoin(ts: seq<string>)
    requires forall t :: t in ts ==> CleanToken(t)
    ensures SplitPortList(Join(ts, ",")) == ts
  {
    if ts != [] {
      JoinNonEmpty(ts, ",");
      SplitJoin(ts, ',');
      assert forall i :: 0 <= i < |ts| ==> ts[i] in ts;
      PortTokensClean(ts);
    }
  }

  // ---------------------------------------------------------------------------
  // Building the set / delete batches of one rule

  /** A JSON value of the request body where only its truthiness or text matters. */
  datatype Json = JStr(s: string) | JBool(b: bool) | JNum(n: int) | JNull

  /** The source or destination half of a rule form; "" stands for a missing or null field. */
  datatype Endpoint = Endpoint(
    addressType: string, addressGroup: string, timeout: string, timeoutUnit: Option<string>,
    address: string, portType: string, portGroup: string, port: string)

  datatype RulePayload = RulePayload(
    action: string, protocol: string, description: string,
    source: Endpoint, destination: Endpoint, disabled: Json)

  /** ["firewall","ipv4","name",name,"rule",key]: the root of the rule stored under `key`. */
  function RulePath(name: string, key: string): (p: Path)
    ensures |p| == 6 && p[5] == key
  {
    ["firewall", "ipv4", "name", name, "rule", key]
  }

  /** The root of rule number `number`, whose key is str(number). */
  function RuleBase(name: string, number: int): (p: Path)
    ensures p == RulePath(name, IntStr(number))
  {
    RulePath(name, IntStr(number))
  }

  /** The disabled flag: a string counts when it is true, 1, yes or on in any case; anything else by truthiness. */
  predicate DisabledFlag(d: Json)
  {
    match d
    case JStr(s) => Lower(s) in {"true", "1", "yes", "on"}
    case JBool(b) => b
    case JNum(n) => n != 0
    case JNull => false
  }

  /** Under(base, [field, value]) when the stripped value is non-empty. */
  function Optional(base: Path, field: string, value: string): (r: seq<Path>)
    ensures forall c :: c in r ==> HasPrefix(c, base) && |c| == |base| + 2 && c[|base|] == field
    ensures r == [] <==> Strip(value) == []
    ensures Under(base, [field, Strip(value)]) in r <==> Strip(value) != []
  {
    var v := Strip(value);
    if v != [] then [Under(base, [field, v])] else []
  }

  /** Address paths of one side: a "type:name" group (dynamic groups go to add-address-to-group) or a plain address. */
  function AddressCommands(base: Path, side: string, e: Endpoint): (r: seq<Path>)
    ensures forall c :: c in r ==> HasPrefix(c, base) && |c| >= |base| + 3
  {
    if e.addressType == "group" then
      var g := Strip(e.addressGroup);
      if g != [] && ':' in g then
        var i := IndexOf(g, ':');
        GroupAddressCommands(base, side, g[..i], g[i + 1..], e.timeout, e.timeoutUnit.GetOr("m"))
      else []
    else
      var a := Strip(e.address);
      if a != [] then [Under(base, [side, "address", a])] else []
  }

  /** A dynamic group goes to add-address-to-group (with its timeout when one is given); any other kind under group. */
  function GroupAddressCommands(base: Path, side: string, kind: string, name: string, timeout: string, unit: string): (r: seq<Path>)
    ensures forall c :: c in r ==> HasPrefix(c, base) && |c| == |base| + 4
    ensures kind != "dynamic-group" ==> r == [Under(base, [side, "group", kind, name])]
  {
    if kind == "dynamic-group" then
      var target := side + "-address";
      [Under(base, ["add-address-to-group", target, "address-group", name])] +
      (if timeout != [] then [Under(base, ["add-address-to-group", target, "timeout", timeout + unit])] else [])
    else [Under(base, [side, "group", kind, name])]
  }

  /** Port paths of one side: a port group, or the cleaned manual port list joined by ",". */
  function PortCommands(base: Path, side: string, e: Endpoint): (r: seq<Path>)
    ensures forall c :: c in r ==> HasPrefix(c, base) && |c| >= |base| + 3
    ensures e.portType != "group" ==>
      r == (if SplitPortList(e.port) == [] then [] else [Under(base, [side, "port", Join(SplitPortList(e.port), ",")])])
  {
    if e.portType == "group" then
      var pg := Strip(e.portGroup);
      if pg != [] then [Under(base, [side, "group", "port-group", pg])] else []
    else
      var tokens := SplitPortList(e.port);
      if tokens != [] then [Under(base, [side, "port", Join(tokens, ",")])] else []
  }

  /** build_rule_set_commands: the rule root, then each present field, then disable when flagged. */
  function BuildRuleSetCommands(name: string, number: int, p: RulePayload): (r: seq<Path>)
    ensures r != [] && r[0] == RuleBase(name, number)
    ensures forall c :: c in r ==> HasPrefix(c, RuleBase(name, number))
    ensures Under(RuleBase(name, number), ["disable"]) in r <==> DisabledFlag(p.disabled)
    ensures Under(RuleBase(name, number), ["action", Strip(p.action)]) in r <==> Strip(p.action) != []
    ensures Under(RuleBase(name, number), ["protocol", Strip(p.protocol)]) in r <==> Strip(p.protocol) != []
  {
    RuleCommands(RuleBase(name, number), p)
  }

  function RuleCommands(base: Path, p: RulePayload): (r: seq<Path>)
    ensures r != [] && r[0] == base
    ensures forall c :: c in r ==> HasPrefix(c, base)
    ensures Under(base, ["disable"]) in r <==> DisabledFlag(p.disabled)
    ensures Under(base, ["action", Strip(p.action)]) in r <==> Strip(p.action) != []
    ensures Under(base, ["protocol", Strip(p.protocol)]) in r <==> Strip(p.protocol) != []
  {
    var fields := FieldCommands(base, p);
    var sides := SideCommands(base, p);
    var disable := if DisabledFlag(p.disabled) then [Under(base, ["disable"])] else [];
    RuleCommandsParts(base, p, fields, sides, disable);
    [base] + fields + sides + disable
  }

  /** The address and port paths of both sides, source first: each lies at least three levels below the rule. */
  function SideCommands(base: Path, p: RulePayload): (r: seq<Path>)
    ensures DeepUnder(r, base)
  {
    var sa, sp := AddressCommands(base, "source", p.source), PortCommands(base, "source", p.source);
    var da, dp := AddressCommands(base, "destination", p.destination), PortCommands(base, "destination", p.destination);
    DeepUnderAppend(sa, sp, base);
    DeepUnderAppend(sa + sp, da, base);
    DeepUnderAppend(sa + sp + da, dp, base);
    sa + sp + da + dp
  }

  /** Every path lies at least three levels below `base`. */
  predicate DeepUnder(cs: seq<Path>, base: Path)
  {
    forall c :: c in cs ==> HasPrefix(c, base) && |c| >= |base| + 3
  }

  lemma DeepUnderAppend(a: seq<Path>, b: seq<Path>, base: Path)
    requires DeepUnder(a, base) && DeepUnder(b, base)
    ensures DeepUnder(a + b, base)
  {
  }

  lemma RuleCommandsParts(base: Path, p: RulePayload, fields: seq<Path>, sides: seq<Path>, disable: seq<Path>)
    requires fields == FieldCommands(base, p) && DeepUnder(sides, base)
    requires disable == if DisabledFlag(p.disabled) then [Under(base, ["disable"])] else []
    ensures var r := [base] + fields + sides + disable;
      (forall c :: c in r ==> HasPrefix(c, base)) &&
      (Under(base, ["disable"]) in r <==> DisabledFlag(p.disabled)) &&
      (Under(base, ["action", Strip(p.action)]) in r <==> Strip(p.action) != []) &&
      (Under(base, ["protocol", Strip(p.protocol)]) in r <==> Strip(p.protocol) != [])
  {
    var d := Under(base, ["disable"]);
    var a := Under(base, ["action", Strip(p.action)]);
    var pr := Under(base, ["protocol", Strip(p.protocol)]);
    assert base[..|base|] == base;
    assert d !in fields && d !in sides && d != base;
    assert a !in sides && a != base && a !in disable;
    assert pr !in sides && pr != base && pr !in disable;
    var r := [base] + fields + sides + disable;
    forall c | c in r ensures HasPrefix(c, base) {
      if c !in fields && c !in sides && c !in disable {
        assert c == base;
      }
    }
  }

  /** The action, protocol and description paths; the action path is there exactly when the action is not blank. */
  function FieldCommands(base: Path, p: RulePayload): (r: seq<Path>)
    ensures forall c :: c in r ==> HasPrefix(c, base) && |c| == |base| + 2
    ensures Under(base, ["action", Strip(p.action)]) in r <==> Strip(p.action) != []
    ensures Under(base, ["protocol", Strip(p.protocol)]) in r <==> Strip(p.protocol) != []
  {
    var action := Optional(base, "action", p.action);
    var protocol := Optional(base, "protocol", p.protocol);
    var desc := Optional(base, "description", p.description);
    var a := Under(base, ["action", Strip(p.action)]);
    var pr := Under(base, ["protocol", Strip(p.protocol)]);
    assert a[|base|] == "action" && pr[|base|] == "protocol";
    assert a !in protocol && a !in desc;
    assert pr !in action && pr !in desc;
    action + protocol + desc
  }

  /** build_rule_delete_commands: the rule root alone. */
  function BuildRuleDeleteCommands(name: string, number: int): (r: seq<Path>)
    ensures |r| == 1 && r[0] == RuleBase(name, number)
  {
    [RuleBase(name, number)]
  }

  /** build_rule_disable_paths: (sets, deletes); disabling sets the disable leaf, enabling deletes it. */
  function BuildRuleDisablePaths(name: string, number: int, disable: bool): (r: (seq<Path>, seq<Path>))
    ensures disable ==> r.0 == [RuleBase(name, number) + ["disable"]] && r.1 == []
    ensures !disable ==> r.0 == [] && r.1 == [RuleBase(name, number) + ["disable"]]
  {
    var p := RuleBase(name, number) + ["disable"];
    if disable then ([p], []) else ([], [p])
  }

  // ---------------------------------------------------------------------------
  // Flattening a subtree into set paths

  /**
   * flatten_config_tree: the set paths that re-create `n` under `prefix`. With
   * `emitScalar` a scalar reached at the top (or through top-level lists) gives
   * prefix + [text]; the interfaces copy of the function gives nothing for it.
   */
  function Flatten(n: Node, prefix: Path, emitScalar: bool): seq<Path>
    decreases n, 1
  {
    match n
    case Map(_) => Concat(EntryBatches(n, prefix, emitScalar))
    case List(_) => Concat(ItemBatches(n, prefix, emitScalar))
    case Leaf(s) => if emitScalar then [prefix + [s]] else []
    case None => []
  }

  function EntryBatches(n: Node, prefix: Path, emitScalar: bool): (r: seq<seq<Path>>)
    requires n.Map?
    ensures |r| == |n.entries|
    decreases n, 0
  {
    seq(|n.entries|, i requires 0 <= i < |n.entries| =>
      EntryPaths(n.entries[i].0, n.entries[i].1, prefix, emitScalar))
  }

  function ItemBatches(n: Node, prefix: Path, emitScalar: bool): (r: seq<seq<Path>>)
    requires n.List?
    ensures |r| == |n.items|
    decreases n, 0
  {
    seq(|n.items|, i requires 0 <= i < |n.items| => Flatten(n.items[i], prefix, emitScalar))
  }

  /**
   * The paths for one key: a non-empty dict recurses, an empty dict or null gives
   * prefix + [key], a list gives one batch per item, a scalar prefix + [key, text].
   */
  function EntryPaths(key: string, v: Node, prefix: Path, emitScalar: bool): seq<Path>
    decreases v, 2
  {
    match v
    case Map(sub) => if sub != [] then Flatten(v, prefix + [key], emitScalar) else [prefix + [key]]
    case List(_) => Concat(ValueItemBatches(key, v, prefix, emitScalar))
    case None => [prefix + [key]]
    case Leaf(s) => [prefix + [key, s]]
  }

  /** A dict item recurses under prefix + [key]; any other item gives prefix + [key, str(item)]. */
  function ValueItemBatches(key: string, v: Node, prefix: Path, emitScalar: bool): (r: seq<seq<Path>>)
    requires v.List?
    ensures |r| == |v.items|
    decreases v, 1
  {
    seq(|v.items|, j requires 0 <= j < |v.items| =>
      if v.items[j].Map? then Flatten(v.items[j], prefix + [key], emitScalar)
      else [prefix + [key, Str(v.items[j])]])
  }

  lemma ConcatStep<T(!new)>(xss: seq<seq<T>>, i: int)
    requires 0 <= i < |xss|
    ensures Concat(xss[..i + 1]) == Concat(xss[..i]) + xss[i]
  {
    assert xss[..i + 1][..i] == xss[..i];
  }

  /** The recursive walk of flatten_config_tree, extending `commands` key by key. */
  method FlattenConfigTree(n: Node, prefix: Path, emitScalar: bool) returns (commands: seq<Path>)
    ensures commands == Flatten(n, prefix, emitScalar)
    decreases n, 1
  {
    commands := [];
    match n {
      case Map(m) =>
        var batches := EntryBatches(n, prefix, emitScalar);
        var i := 0;
        while i < |m|
          invariant 0 <= i <= |m|
          invariant commands == Concat(batches[..i])
        {
          ConcatStep(batches, i);
          var sub := FlattenEntry(m[i].0, m[i].1, prefix, emitScalar);
          commands := commands + sub;
          i := i + 1;
        }
        assert batches[..i] == batches;
      case List(xs) =>
        var batches := ItemBatches(n, prefix, emitScalar);
        var i := 0;
        while i < |xs|
          invariant 0 <= i <= |xs|
          invariant commands == Concat(batches[..i])
        {
          ConcatStep(batches, i);
          var sub := FlattenConfigTree(xs[i], prefix, emitScalar);
          commands := commands + sub;
          i := i + 1;
        }
        assert batches[..i] == batches;
      case Leaf(s) =>
        if emitScalar {
          commands := [prefix + [s]];
        }
      case None =>
    }
  }

  /** The body of the key loop: what one key/value pair contributes. */
  method FlattenEntry(key: string, value: Node, prefix: Path, emitScalar: bool) returns (commands: seq<Path>)
    ensures commands == EntryPaths(key, value, prefix, emitScalar)
    decreases value, 2
  {
    match value {
      case Map(sub) =>
        if sub != [] {
          commands := FlattenConfigTree(value, prefix + [key], emitScalar);
        } else {
          commands := [prefix + [key]];
        }
      case List(items) =>
        var batches := ValueItemBatches(key, value, prefix, emitScalar);
        commands := [];
        var j := 0;
        while j < |items|
          invariant 0 <= j <= |items|
          invariant commands == Concat(batches[..j])
        {
          ConcatStep(batches, j);
          if items[j].Map? {
            var sub := FlattenConfigTree(items[j], prefix + [key], emitScalar);
            commands := commands + sub;
          } else {
            commands := commands + [prefix + [key, Str(items[j])]];
          }
          j := j + 1;
        }
        assert batches[..j] == batches;
      case None =>
        commands := [prefix + [key]];
      case Leaf(s) =>
        commands := [prefix + [key, s]];
    }
  }

  /** Every flattened path lies strictly below the prefix. */
  lemma {:induction false} FlattenBelowPrefix(n: Node, prefix: Path, emitScalar: bool)
    ensures forall c :: c in Flatten(n, prefix, emitScalar) ==> HasPrefix(c, prefix) && |c| > |prefix|
    decreases n, 1
  {
    match n
    case Map(m) =>
      var bs := EntryBatches(n, prefix, emitScalar);
      forall i | 0 <= i < |m| ensures forall c :: c in bs[i] ==> HasPrefix(c, prefix) && |c| > |prefix| {
        EntryBelowPrefix(m[i].0, m[i].1, prefix, emitScalar);
      }
    case List(xs) =>
      var bs := ItemBatches(n, prefix, emitScalar);
      forall i | 0 <= i < |xs| ensures forall c :: c in bs[i] ==> HasPrefix(c, prefix) && |c| > |prefix| {
        FlattenBelowPrefix(xs[i], prefix, emitScalar);
      }
    case Leaf(_) =>
    case None =>
  }

  lemma {:induction false} EntryBelowPrefix(key: string, v: Node, prefix: Path, emitScalar: bool)
    ensures forall c :: c in EntryPaths(key, v, prefix, emitScalar) ==> HasPrefix(c, prefix + [key])
    ensures forall c :: c in EntryPaths(key, v, prefix, emitScalar) ==> HasPrefix(c, prefix) && |c| > |prefix|
    decreases v, 2
  {
    var kp := prefix + [key];
    match v
    case Map(sub) =>
      if sub != [] {
        FlattenBelowPrefix(v, kp, emitScalar);
        PrefixOfPrefix(prefix, kp, Flatten(v, kp, emitScalar));
      }
    case List(items) =>
      var bs := ValueItemBatches(key, v, prefix, emitScalar);
      forall j | 0 <= j < |items| ensures forall c :: c in bs[j] ==> HasPrefix(c, kp) {
        if items[j].Map? {
          FlattenBelowPrefix(items[j], kp, emitScalar);
        }
      }
      PrefixOfPrefix(prefix, kp, Concat(bs));
    case None =>
    case Leaf(_) =>
  }

  lemma PrefixOfPrefix(prefix: Path, kp: Path, cs: seq<Path>)
    requires |kp| == |prefix| + 1 && kp[..|prefix|] == prefix
    requires forall c :: c in cs ==> HasPrefix(c, kp)
    ensures forall c :: c in cs ==> HasPrefix(c, prefix) && |c| > |prefix|
  {
    forall c | c in cs ensures HasPrefix(c, prefix) {
      assert c[..|prefix|] == c[..|kp|][..|prefix|];
    }
  }

  /** The two copies agree on every dict: they differ only for a scalar at the top. */
  lemma {:induction false} FlattenCopiesAgreeOnDicts(n: Node, prefix: Path)
    requires n.Map?
    ensures Flatten(n, prefix, true) == Flatten(n, prefix, false)
    ensures Flatten(Leaf("x"), prefix, true) == [prefix + ["x"]] && Flatten(Leaf("x"), prefix, false) == []
    decreases n, 1
  {
    var m := n.entries;
    forall i | 0 <= i < |m|
      ensures EntryPaths(m[i].0, m[i].1, prefix, true) == EntryPaths(m[i].0, m[i].1, prefix, false)
    {
      EntryCopiesAgree(m[i].0, m[i].1, prefix);
    }
    assert EntryBatches(n, prefix, true) == EntryBatches(n, prefix, false);
  }

  lemma {:induction false} EntryCopiesAgree(key: string, v: Node, prefix: Path)
    ensures EntryPaths(key, v, prefix, true) == EntryPaths(key, v, prefix, false)
    decreases v, 2
  {
    match v
    case Map(sub) =>
      if sub != [] {
        FlattenCopiesAgreeOnDicts(v, prefix + [key]);
      }
    case List(items) =>
      forall j | 0 <= j < |items| && items[j].Map?
        ensures Flatten(items[j], prefix + [key], true) == Flatten(items[j], prefix + [key], false)
      {
        FlattenCopiesAgreeOnDicts(items[j], prefix + [key]);
      }
      assert ValueItemBatches(key, v, prefix, true) == ValueItemBatches(key, v, prefix, false);
    case None =>
    case Leaf(_) =>
  }

  lemma {:induction false} ConcatSingletons<T(!new)>(xs: seq<T>)
    ensures Concat(seq(|xs|, i requires 0 <= i < |xs| => [xs[i]])) == xs
  {
    if xs != [] {
      var init := xs[..|xs| - 1];
      ConcatSingletons(init);
      assert seq(|xs|, i requires 0 <= i < |xs| => [xs[i]])[..|xs| - 1]
        == seq(|init|, i requires 0 <= i < |init| => [init[i]]);
    }
  }

  /** A dict whose values are all scalars flattens to one prefix + [key, value] path per key, in order. */
  lemma ScalarDictPaths(m: Entries, prefix: Path, emitScalar: bool)
    requires forall i :: 0 <= i < |m| ==> m[i].1.Leaf?
    ensures Flatten(Map(m), prefix, emitScalar)
      == seq(|m|, i requires 0 <= i < |m| => prefix + [m[i].0, m[i].1.text])
  {
    var paths := seq(|m|, i requires 0 <= i < |m| => prefix + [m[i].0, m[i].1.text]);
    assert EntryBatches(Map(m), prefix, emitScalar) == seq(|paths|, i requires 0 <= i < |paths| => [paths[i]]);
    ConcatSingletons(paths);
  }

  /** A list of scalars under one key gives one prefix + [key, item] path per item, in order. */
  lemma ScalarListPaths(key: string, items: seq<Node>, prefix: Path, emitScalar: bool)
    requires forall j :: 0 <= j < |items| ==> items[j].Leaf?
    ensures EntryPaths(key, List(items), prefix, emitScalar)
      == seq(|items|, j requires 0 <= j < |items| => prefix + [key, items[j].text])
  {
    var paths := seq(|items|, j requires 0 <= j < |items| => prefix + [key, items[j].text]);
    assert ValueItemBatches(key, List(items), prefix, emitScalar) == seq(|paths|, j requires 0 <= j < |paths| => [paths[j]]);
    ConcatSingletons(paths);
  }

  /** flatten_rule_config: the rule root, then its flattened body, without duplicates. */
  function FlattenRuleConfig(rule: Node, name: string, key: string): (r: seq<Path>)
    ensures r != [] && r[0] == RulePath(name, key)
    ensures NoDuplicates(r)
    ensures forall c :: c in r ==> HasPrefix(c, RulePath(name, key))
  {
    var base := RulePath(name, key);
    FlattenBelowPrefix(rule, base, true);
    DedupeKeepsHead([base] + Flatten(rule, base, true));
    Dedupe([base] + Flatten(rule, base, true))
  }
}
