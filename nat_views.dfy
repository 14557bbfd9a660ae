/**
 * The NAT page handlers: reading source and destination NAT rules out of the
 * "nat" configuration tree, the set operations that create or update a rule,
 * the next free rule number, and the two renumbering schemes (the compaction
 * that runs after a delete, and the client-driven reorder). Both renumber to
 * 100, 101, ... and delete and re-create every rule.
 *
 * A request body is a dictionary of string fields; `dict.get(k)` is truthy
 * exactly when the field is present and non-empty. A handler that raises is
 * answered with status 500; the functions below return None for that case.
 */
module NatViews {
  import opened Wrappers
  import opened Text
  import opened Numbers
  import opened ConfigTree
  import opened Paths
  import opened Sorting
  import opened Device

  type Payload = map<string, string>

  /** data.get(k) of a request body, with "" for a missing field. */
  function Given(d: Payload, k: string): string
  {
    if k in d then d[k] else ""
  }

  /**
   * d.get(k, {}) used as a dictionary: a missing key gives {}, a dictionary
   * gives its entries, and any other value makes the next .get raise.
   */
  function GetDict(m: Entries, k: string): (r: Option<Entries>)
    ensures k !in Keys(m) ==> r == Some([])
    ensures k in Keys(m) ==> (r.Some? <==> Lookup(m, k).value.Map?)
    ensures r.Some? && k in Keys(m) ==> Lookup(m, k) == Some(Map(r.value))
  {
    match Lookup(m, k)
    case None => Some([])
    case Some(v) => if v.Map? then Some(v.entries) else Option.None
  }

  /** nat_config.get(kind, {}).get("rule", {}): the rules of one kind. */
  function RulesOf(natConfig: Entries, kind: string): Option<Entries>
  {
    var section :- GetDict(natConfig, kind);
    GetDict(section, "rule")
  }

  /** The root of a NAT rule: nat <kind> rule <number>. */
  function NatRoot(kind: string, number: string): (p: Path)
    ensures |p| == 4 && p[1] == kind && p[3] == number
  {
    ["nat", kind, "rule", number]
  }

  // ---------------------------------------------------------------------------
  // Next rule number

  /**
   * get_next_rule_number: 100 for no rules, otherwise one past the largest
   * int(key); a key that is not an integer raises ValueError (None). The
   * source returns the number as text, IntStr of this one.
   */
  function GetNextRuleNumber(rules: Entries): (r: Option<int>)
    ensures rules == [] ==> r == Some(100)
    ensures r.None? <==> AllNumbers(Keys(rules)).None?
    ensures r.Some? && rules != [] ==> r.value - 1 in AllNumbers(Keys(rules)).value
    ensures r.Some? && rules != [] ==> forall x :: x in AllNumbers(Keys(rules)).value ==> x < r.value
  {
    if rules == [] then Some(100)
    else
      match AllNumbers(Keys(rules))
      case None => Option.None
      case Some(ns) => Some(MaxOf(ns) + 1)
  }

  /** No existing key parses to the number handed out. */
  lemma NextRuleNumberIsFresh(rules: Entries, key: string)
    requires GetNextRuleNumber(rules).Some? && key in Keys(rules)
    ensures ParseInt(key) != Some(GetNextRuleNumber(rules).value)
  {
    var keys := Keys(rules);
    var ns := AllNumbers(keys).value;
    var i :| 0 <= i < |keys| && keys[i] == key;
    assert ns[i] in ns;
  }

  // ---------------------------------------------------------------------------
  // Listing

  /**
   * One rule as the page lists it. Values are passed through as found in the
   * tree; "enabled" is always true and is not represented.
   */
  datatype NatRow =
    | SourceRow(number: string, description: Node, outboundInterface: Node, sourceAddress: Node, translation: Node)
    | DestinationRow(number: string, description: Node, inboundInterface: Node, destinationAddress: Node,
                     destinationPort: Node, protocol: Node, translationAddress: Node, translationPort: Node)

  /** d.get(k, "") of a dictionary in the tree. */
  function Field(m: Entries, k: string): Node
  {
    Lookup(m, k).GetOr(Leaf(""))
  }

  /** The listed form of a source rule; None when a container is not a dictionary. */
  function SourceRowOf(number: string, rule: Node): (r: Option<NatRow>)
    ensures r.Some? <==> (rule.Map? && GetDict(rule.entries, "outbound-interface").Some? &&
      GetDict(rule.entries, "source").Some? && GetDict(rule.entries, "translation").Some?)
    ensures r.Some? ==> r.value.SourceRow? && r.value.number == number
    ensures r.Some? ==> r.value.translation == Field(GetDict(rule.entries, "translation").value, "address")
  {
    if !rule.Map? then Option.None
    else
      var out :- GetDict(rule.entries, "outbound-interface");
      var src :- GetDict(rule.entries, "source");
      var tr :- GetDict(rule.entries, "translation");
      Some(SourceRow(number, Field(rule.entries, "description"), Field(out, "name"), Field(src, "address"), Field(tr, "address")))
  }

  /** translation.get("redirect", {}) of a destination rule. */
  function RedirectOf(translation: Entries): Node
  {
    Lookup(translation, "redirect").GetOr(Map([]))
  }

  /**
   * The listed form of a destination rule. A truthy translation.redirect is
   * reported as translation address "redirect" with the redirect's port.
   */
  function DestinationRowOf(number: string, rule: Node): (r: Option<NatRow>)
    ensures r.Some? ==>
      rule.Map? && GetDict(rule.entries, "translation").Some? && r.value.DestinationRow? && r.value.number == number
    ensures r.Some? ==>
      var tr := GetDict(rule.entries, "translation").value;
      var redirect := RedirectOf(tr);
      if Truthy(redirect) then
        redirect.Map? && r.value.translationAddress == Leaf("redirect") && r.value.translationPort == Field(redirect.entries, "port")
      else
        r.value.translationAddress == Field(tr, "address") && r.value.translationPort == Field(tr, "port")
    ensures (rule.Map? && GetDict(rule.entries, "translation").Some? && Truthy(RedirectOf(GetDict(rule.entries, "translation").value)) &&
      !RedirectOf(GetDict(rule.entries, "translation").value).Map?) ==> r.None?
  {
    if !rule.Map? then Option.None
    else
      var tr :- GetDict(rule.entries, "translation");
      var redirect := RedirectOf(tr);
      var translation :- if !Truthy(redirect) then Some((Field(tr, "address"), Field(tr, "port")))
        else if redirect.Map? then Some((Leaf("redirect"), Field(redirect.entries, "port")))
        else Option.None;
      var inbound :- GetDict(rule.entries, "inbound-interface");
      var dst :- GetDict(rule.entries, "destination");
      Some(DestinationRow(number, Field(rule.entries, "description"), Field(inbound, "name"),
        Field(dst, "address"), Field(dst, "port"), Field(rule.entries, "protocol"), translation.0, translation.1))
  }

  function RowOf(source: bool, number: string, rule: Node): Option<NatRow>
  {
    if source then SourceRowOf(number, rule) else DestinationRowOf(number, rule)
  }

  /** The rows of one kind, in dictionary order; None when one of them raises. */
  function RowsOf(rules: Entries, source: bool): (r: Option<seq<NatRow>>)
    ensures r.Some? ==> |r.value| == |rules|
    ensures r.Some? ==> forall i :: 0 <= i < |rules| ==> RowOf(source, rules[i].0, rules[i].1) == Some(r.value[i])
  {
    if rules == [] then Some([])
    else
      var init :- RowsOf(rules[..|rules| - 1], source);
      var last :- RowOf(source, rules[|rules| - 1].0, rules[|rules| - 1].1);
      assert forall i :: 0 <= i < |rules| - 1 ==> rules[..|rules| - 1][i] == rules[i];
      Some(init + [last])
  }

  /** The collecting loop of parse_nat_rules over the rules of one kind. */
  method CollectRows(rules: Entries, source: bool) returns (rows: Option<seq<NatRow>>)
    ensures rows == RowsOf(rules, source)
  {
    var acc: seq<NatRow> := [];
    var i := 0;
    while i < |rules|
      invariant 0 <= i <= |rules|
      invariant RowsOf(rules[..i], source) == Some(acc)
    {
      var row := RowOf(source, rules[i].0, rules[i].1);
      RowsOfStep(rules, i, source);
      if row.None? {
        MissingRowFails(rules, i + 1, source);
        return Option.None;
      }
      acc := acc + [row.value];
      i := i + 1;
    }
    assert rules[..i] == rules;
    rows := Some(acc);
  }

  /** One more rule: its row is appended, or the listing raises. */
  lemma RowsOfStep(rules: Entries, i: int, source: bool)
    requires 0 <= i < |rules| && RowsOf(rules[..i], source).Some?
    ensures RowOf(source, rules[i].0, rules[i].1).Some? ==>
      RowsOf(rules[..i + 1], source) == Some(RowsOf(rules[..i], source).value + [RowOf(source, rules[i].0, rules[i].1).value])
  {
    assert rules[..i + 1][..i] == rules[..i];
    assert rules[..i + 1][i] == rules[i];
  }

  /** Once a prefix of the rules raises, the whole listing raises. */
  lemma {:induction false} MissingRowFails(rules: Entries, n: int, source: bool)
    requires 0 < n <= |rules| && RowOf(source, rules[n - 1].0, rules[n - 1].1).None?
    ensures RowsOf(rules, source).None?
    decreases |rules|
  {
    if n < |rules| {
      var init := rules[..|rules| - 1];
      assert init[n - 1] == rules[n - 1];
      MissingRowFails(init, n, source);
    }
  }

  /** int(row["rule_number"]); only used once every number is known to parse. */
  function RowNumber(row: NatRow): int
  {
    ParseInt(row.number).GetOr(0)
  }

  function RowNumbers(rows: seq<NatRow>): (r: seq<string>)
    ensures |r| == |rows| && forall i :: 0 <= i < |rows| ==> r[i] == rows[i].number
  {
    seq(|rows|, i requires 0 <= i < |rows| => rows[i].number)
  }

  /** rules.sort(key=lambda x: int(x["rule_number"])); None when a number is not an integer. */
  function SortRows(rows: seq<NatRow>): (r: Option<seq<NatRow>>)
    ensures r.None? <==> AllNumbers(RowNumbers(rows)).None?
    ensures r.Some? ==> multiset(r.value) == multiset(rows) && |r.value| == |rows|
    ensures r.Some? ==> forall i :: 0 <= i < |r.value| ==> ParseInt(r.value[i].number).Some?
    ensures r.Some? ==> forall i, j :: 0 <= i < j < |r.value| ==>
      ParseInt(r.value[i].number).value <= ParseInt(r.value[j].number).value
    ensures r.Some? ==> forall n :: Tied(r.value, RowNumber, IntLe, n) == Tied(rows, RowNumber, IntLe, n)
  {
    if AllNumbers(RowNumbers(rows)).None? then Option.None
    else
      IntLeTotal();
      var sorted := SortBy(rows, RowNumber, IntLe);
      RearrangedRowsParse(rows, sorted);
      assert forall n :: Tied(sorted, RowNumber, IntLe, n) == Tied(rows, RowNumber, IntLe, n) by {
        forall n ensures Tied(sorted, RowNumber, IntLe, n) == Tied(rows, RowNumber, IntLe, n) {
          SortByStable(rows, RowNumber, IntLe, n);
        }
      }
      Some(sorted)
  }

  /** Every row of a rearrangement of rows whose numbers all parse has a number that parses. */
  lemma RearrangedRowsParse(rows: seq<NatRow>, sorted: seq<NatRow>)
    requires AllNumbers(RowNumbers(rows)).Some? && multiset(sorted) == multiset(rows)
    ensures forall i :: 0 <= i < |sorted| ==> ParseInt(sorted[i].number).Some?
  {
    forall i | 0 <= i < |sorted| ensures ParseInt(sorted[i].number).Some? {
      assert sorted[i] in multiset(rows);
      var j :| 0 <= j < |rows| && rows[j] == sorted[i];
      assert RowNumbers(rows)[j] == rows[j].number;
    }
  }

  /**
   * parse_nat_rules: the source rules, then the destination rules, sorted by
   * int(rule number); None when a container is malformed or a number is not
   * an integer. The sort is stable, so rows with the same number keep their
   * order: the source row first.
   */
  function ParsedNatRules(natConfig: Entries): (r: Option<seq<NatRow>>)
    ensures r.Some? ==> RulesOf(natConfig, "source").Some? && RulesOf(natConfig, "destination").Some?
    ensures r.Some? ==>
      RowsOf(RulesOf(natConfig, "source").value, true).Some? &&
      RowsOf(RulesOf(natConfig, "destination").value, false).Some?
    ensures r.Some? ==>
      var src := RowsOf(RulesOf(natConfig, "source").value, true).value;
      var dst := RowsOf(RulesOf(natConfig, "destination").value, false).value;
      multiset(r.value) == multiset(src + dst) && |r.value| == |src| + |dst|
    ensures r.Some? ==> forall i, j :: 0 <= i < j < |r.value| ==>
      ParseInt(r.value[i].number).Some? && ParseInt(r.value[j].number).Some? &&
      ParseInt(r.value[i].number).value <= ParseInt(r.value[j].number).value
    ensures r.Some? ==>
      var src := RowsOf(RulesOf(natConfig, "source").value, true).value;
      var dst := RowsOf(RulesOf(natConfig, "destination").value, false).value;
      forall n :: Tied(r.value, RowNumber, IntLe, n) == Tied(src + dst, RowNumber, IntLe, n)
  {
    var sourceRules :- RulesOf(natConfig, "source");
    var src :- RowsOf(sourceRules, true);
    var destinationRules :- RulesOf(natConfig, "destination");
    var dst :- RowsOf(destinationRules, false);
    SortRows(src + dst)
  }

  /** parse_nat_rules as the source runs it: two collecting loops, then a sort. */
  method ParseNatRules(natConfig: Entries) returns (rows: Option<seq<NatRow>>)
    ensures rows == ParsedNatRules(natConfig)
  {
    var sourceRules := RulesOf(natConfig, "source");
    if sourceRules.None? {
      return Option.None;
    }
    var src := CollectRows(sourceRules.value, true);
    if src.None? {
      return Option.None;
    }
    var destinationRules := RulesOf(natConfig, "destination");
    if destinationRules.None? {
      return Option.None;
    }
    var dst := CollectRows(destinationRules.value, false);
    if dst.None? {
      return Option.None;
    }
    rows := SortRows(src.value + dst.value);
  }

  // ---------------------------------------------------------------------------
  // Rule paths

  /** One optional set path: base + tail + [value] when the value is truthy. */
  function Opt(base: Path, tail: Path, value: string): (r: seq<Path>)
    ensures value == "" ==> r == []
    ensures value != "" ==> r == [Under(base, tail + [value])]
  {
    if value == "" then [] else [Under(base, tail + [value])]
  }

  /** The description, outbound-interface and source-address paths of a source rule. */
  function SourceFieldPaths(base: Path, description: string, outbound: string, address: string): (r: seq<Path>)
    ensures AllUnder(r, base) && |r| <= 3
  {
    Opt(base, ["description"], description) + Opt(base, ["outbound-interface", "name"], outbound) +
    Opt(base, ["source", "address"], address)
  }

  /** The fields of a destination rule as the builders read them. */
  datatype DestFields = DestFields(
    description: string, inbound: string, address: string, port: string, protocol: string,
    redirect: bool, translationAddress: string, translationPort: string)

  /** The translation paths: only the redirect port for a redirect, else address and port. */
  function TranslationPaths(base: Path, f: DestFields): (r: seq<Path>)
    ensures AllUnder(r, base)
    ensures forall c :: c in r ==> |c| > |base| + 1 && c[|base|] == "translation"
    ensures f.redirect ==> r == Opt(base, ["translation", "redirect", "port"], f.translationPort)
    ensures !f.redirect ==>
      r == Opt(base, ["translation", "address"], f.translationAddress) + Opt(base, ["translation", "port"], f.translationPort)
  {
    if f.redirect then Opt(base, ["translation", "redirect", "port"], f.translationPort)
    else Opt(base, ["translation", "address"], f.translationAddress) + Opt(base, ["translation", "port"], f.translationPort)
  }

  /** The shape of an optional path: base, then the tail, then the value. */
  lemma OptShape(base: Path, tail: Path, value: string)
    requires tail != []
    ensures forall c :: c in Opt(base, tail, value) ==>
      |c| == |base| + |tail| + 1 && HasPrefix(c, base) && c[|base|] == tail[0]
  {
  }

  /** The description, interface, destination and protocol paths of a destination rule. */
  function DestHead(base: Path, f: DestFields): (r: seq<Path>)
    ensures AllUnder(r, base) && |r| <= 5
    ensures forall c :: c in r ==> |c| > |base| + 1 && c[|base|] != "translation"
  {
    var description := Opt(base, ["description"], f.description);
    var inbound := Opt(base, ["inbound-interface", "name"], f.inbound);
    var address := Opt(base, ["destination", "address"], f.address);
    var port := Opt(base, ["destination", "port"], f.port);
    var protocol := Opt(base, ["protocol"], f.protocol);
    OptShape(base, ["description"], f.description);
    OptShape(base, ["inbound-interface", "name"], f.inbound);
    OptShape(base, ["destination", "address"], f.address);
    OptShape(base, ["destination", "port"], f.port);
    OptShape(base, ["protocol"], f.protocol);
    assert "description"[0] != "translation"[0];
    assert "inbound-interface"[0] != "translation"[0];
    assert "destination"[0] != "translation"[0];
    assert "protocol"[0] != "translation"[0];
    description + inbound + address + port + protocol
  }

  /** Every set path of a destination rule, translation last. */
  function DestinationPaths(base: Path, f: DestFields): (r: seq<Path>)
    ensures AllUnder(r, base)
    ensures forall c :: c in TranslationPaths(base, f) ==> c in r
  {
    var head := DestHead(base, f);
    var tail := TranslationPaths(base, f);
    AllUnderAppend(head, tail, base);
    head + tail
  }

  /** The only paths of a destination rule under "translation" are the translation paths. */
  lemma TranslationOnlyFromTail(base: Path, f: DestFields, c: Path)
    requires c in DestinationPaths(base, f) && |c| > |base| && c[|base|] == "translation"
    ensures c in TranslationPaths(base, f)
  {
    assert c in DestHead(base, f) + TranslationPaths(base, f);
  }

  /** A redirect rule gets no translation address or port path, only the redirect port. */
  lemma RedirectOnlyPort(base: Path, f: DestFields, c: Path)
    requires f.redirect
    requires c in DestinationPaths(base, f) && |c| > |base| && c[|base|] == "translation"
    ensures c == Under(base, ["translation", "redirect", "port", f.translationPort]) && f.translationPort != ""
  {
    TranslationOnlyFromTail(base, f, c);
    var tail := ["translation", "redirect", "port"];
    assert tail + [f.translationPort] == ["translation", "redirect", "port", f.translationPort];
  }

  /** A redirect rule carries the redirect port path exactly when a port is given. */
  lemma RedirectPortPresent(base: Path, f: DestFields)
    requires f.redirect
    ensures Under(base, ["translation", "redirect", "port", f.translationPort]) in DestinationPaths(base, f) <==> f.translationPort != ""
  {
    var p := Under(base, ["translation", "redirect", "port", f.translationPort]);
    if p in DestinationPaths(base, f) {
      assert p[|base|] == "translation";
      RedirectOnlyPort(base, f, p);
    }
    if f.translationPort != "" {
      var tail := ["translation", "redirect", "port"];
      assert tail + [f.translationPort] == ["translation", "redirect", "port", f.translationPort];
      assert p in TranslationPaths(base, f);
    }
  }

  /** A non-redirect rule never gets a redirect path under "translation". */
  lemma NoRedirectNoRedirectPath(base: Path, f: DestFields, c: Path)
    requires !f.redirect
    requires c in DestinationPaths(base, f) && |c| > |base| + 1 && c[|base|] == "translation"
    ensures c[|base| + 1] in {"address", "port"}
  {
    TranslationOnlyFromTail(base, f, c);
  }

  /** A non-redirect rule gets the address path iff an address is given, and the port path iff a port is. */
  lemma NoRedirectAddressAndPort(base: Path, f: DestFields)
    requires !f.redirect
    ensures Under(base, ["translation", "address", f.translationAddress]) in DestinationPaths(base, f) <==> f.translationAddress != ""
    ensures Under(base, ["translation", "port", f.translationPort]) in DestinationPaths(base, f) <==> f.translationPort != ""
  {
    assert "address" != "port" by { assert "address"[0] != "port"[0]; }
    NoRedirectAddress(base, f);
    NoRedirectPort(base, f);
  }

  lemma NoRedirectAddress(base: Path, f: DestFields)
    requires !f.redirect && "address" != "port"
    ensures Under(base, ["translation", "address", f.translationAddress]) in DestinationPaths(base, f) <==> f.translationAddress != ""
  {
    var t1, t2 := ["translation", "address"], ["translation", "port"];
    var a := Under(base, t1 + [f.translationAddress]);
    assert t1 + [f.translationAddress] == ["translation", "address", f.translationAddress];
    TwoOpts(base, t1, f.translationAddress, t2, f.translationPort);
    assert a[|base|] == "translation";
    if a in DestinationPaths(base, f) {
      TranslationOnlyFromTail(base, f, a);
    }
  }

  lemma NoRedirectPort(base: Path, f: DestFields)
    requires !f.redirect && "address" != "port"
    ensures Under(base, ["translation", "port", f.translationPort]) in DestinationPaths(base, f) <==> f.translationPort != ""
  {
    var t1, t2 := ["translation", "address"], ["translation", "port"];
    var p := Under(base, t2 + [f.translationPort]);
    assert t2 + [f.translationPort] == ["translation", "port", f.translationPort];
    TwoOpts(base, t1, f.translationAddress, t2, f.translationPort);
    assert p[|base|] == "translation";
    if p in DestinationPaths(base, f) {
      TranslationOnlyFromTail(base, f, p);
    }
  }

  /** Of two optional paths whose tails differ in their second key, each is present exactly when its value is given. */
  lemma TwoOpts(base: Path, t1: Path, v1: string, t2: Path, v2: string)
    requires |t1| == 2 && |t2| == 2 && t1[1] != t2[1]
    ensures Under(base, t1 + [v1]) in Opt(base, t1, v1) + Opt(base, t2, v2) <==> v1 != ""
    ensures Under(base, t2 + [v2]) in Opt(base, t1, v1) + Opt(base, t2, v2) <==> v2 != ""
  {
    var a, b := Under(base, t1 + [v1]), Under(base, t2 + [v2]);
    assert a[|base| + 1] == t1[1] && b[|base| + 1] == t2[1];
  }

  // ---------------------------------------------------------------------------
  // Create and update

  /** The destination fields of a request body: "redirect" in any case selects redirect. */
  function PayloadDestFields(d: Payload): (f: DestFields)
    ensures f.redirect <==> Lower(Given(d, "translation_address")) == "redirect"
  {
    DestFields(Given(d, "description"), Given(d, "inbound_interface"), Given(d, "destination_address"),
      Given(d, "destination_port"), Given(d, "protocol"),
      Lower(Given(d, "translation_address")) == "redirect", Given(d, "translation_address"), Given(d, "translation_port"))
  }

  /** data.get("translation", "masquerade"): a present field is used even when empty. */
  function SourceTranslation(d: Payload): string
  {
    if "translation" in d then d["translation"] else "masquerade"
  }

  /** The set paths of a created or updated source rule: the translation address is always set, last. */
  function SourceCreatePaths(base: Path, d: Payload): (r: seq<Path>)
    ensures r != [] && AllUnder(r, base)
    ensures r[|r| - 1] == Under(base, ["translation", "address", SourceTranslation(d)])
    ensures !("translation" in d) ==> r[|r| - 1] == Under(base, ["translation", "address", "masquerade"])
  {
    SourceFieldPaths(base, Given(d, "description"), Given(d, "outbound_interface"), Given(d, "source_address")) +
    [Under(base, ["translation", "address", SourceTranslation(d)])]
  }

  /** The paths of a rule of the given kind built from a request body. */
  function PayloadPaths(kind: string, base: Path, d: Payload): (r: seq<Path>)
    requires ValidKind(kind)
    ensures AllUnder(r, base)
  {
    if kind == "source" then SourceCreatePaths(base, d) else DestinationPaths(base, PayloadDestFields(d))
  }

  /** data.get("type", "source"). */
  function RequestedKind(d: Payload): string
  {
    if "type" in d then d["type"] else "source"
  }

  predicate ValidKind(kind: string)
  {
    kind == "source" || kind == "destination"
  }

  /**
   * nat_config.get(kind, {}).get("rule", {}) as create_nat_rule reads it: the
   * value found, {} when it is missing, whatever its type; None when the
   * section of that kind is not a dictionary (its .get raises).
   */
  function RuleValue(natConfig: Entries, kind: string): (r: Option<Node>)
    ensures r.Some? <==> GetDict(natConfig, kind).Some?
    ensures r.Some? && RulesOf(natConfig, kind).Some? ==> r.value == Map(RulesOf(natConfig, kind).value)
    ensures r.Some? ==> (RulesOf(natConfig, kind).Some? <==> r.value.Map?)
  {
    var section :- GetDict(natConfig, kind);
    match Lookup(section, "rule")
    case None => Some(Map([]))
    case Some(v) => Some(v)
  }

  /**
   * get_next_rule_number on the value read: a falsy value gives 100 before it
   * is looked into; a dictionary gives the next number of its keys; any other
   * value raises on `.keys()`.
   */
  function NextNumberOf(rules: Node): (r: Option<int>)
    ensures !Truthy(rules) ==> r == Some(100)
    ensures rules.Map? ==> r == GetNextRuleNumber(rules.entries)
    ensures r.Some? <==> !Truthy(rules) || (rules.Map? && AllNumbers(Keys(rules.entries)).Some?)
  {
    if !Truthy(rules) then Some(100)
    else if rules.Map? then GetNextRuleNumber(rules.entries)
    else Option.None
  }

  /**
   * data.get("rule_number") or get_next_rule_number(existing_rules): the rules
   * are only looked into when the body names no number.
   */
  function CreateNumber(d: Payload, existing: Node): (r: Option<string>)
    ensures Given(d, "rule_number") != "" ==> r == Some(d["rule_number"])
    ensures Given(d, "rule_number") == "" ==> (r.Some? <==> NextNumberOf(existing).Some?)
    ensures Given(d, "rule_number") == "" && r.Some? ==> r.value == IntStr(NextNumberOf(existing).value)
  {
    if Given(d, "rule_number") != "" then Some(d["rule_number"])
    else
      var n :- NextNumberOf(existing);
      Some(IntStr(n))
  }

  /**
   * create_nat_rule: the set operations of the new rule, sent as one batch
   * when there are any (the device's answer is not inspected). A type other
   * than source or destination builds nothing and still answers ok. None is
   * the 500 answer.
   */
  function CreateNatRule(d: Payload, natConfig: Entries): (r: Option<seq<Op>>)
    ensures !ValidKind(RequestedKind(d)) ==> r == Some([])
    ensures ValidKind(RequestedKind(d)) ==>
      (r.Some? <==> RuleValue(natConfig, RequestedKind(d)).Some? &&
                    CreateNumber(d, RuleValue(natConfig, RequestedKind(d)).value).Some?)
    ensures ValidKind(RequestedKind(d)) && r.Some? ==>
      var kind := RequestedKind(d);
      var number := CreateNumber(d, RuleValue(natConfig, kind).value).value;
      r.value == Sets(PayloadPaths(kind, NatRoot(kind, number), d))
  {
    var kind := RequestedKind(d);
    if !ValidKind(kind) then Some([])
    else
      var existing :- RuleValue(natConfig, kind);
      var number :- CreateNumber(d, existing);
      Some(Sets(PayloadPaths(kind, NatRoot(kind, number), d)))
  }

  /**
   * A body that names its rule number is built whatever the rules of its kind
   * hold; without one, rules that are present but empty or null give 100.
   */
  lemma CreateNumberNeedsRulesOnlyWhenUnnamed(d: Payload, natConfig: Entries)
    requires ValidKind(RequestedKind(d)) && GetDict(natConfig, RequestedKind(d)).Some?
    ensures Given(d, "rule_number") != "" ==> CreateNatRule(d, natConfig).Some?
    ensures Given(d, "rule_number") == "" && !Truthy(RuleValue(natConfig, RequestedKind(d)).value) ==>
      CreateNumber(d, RuleValue(natConfig, RequestedKind(d)).value) == Some("100")
  {
    if Given(d, "rule_number") == "" && !Truthy(RuleValue(natConfig, RequestedKind(d)).value) {
      HundredStr();
    }
  }

  /** A created source rule always ends with its translation address, "masquerade" unless the body names one. */
  lemma CreatedSourceTranslates(d: Payload, natConfig: Entries)
    requires RequestedKind(d) == "source" && CreateNatRule(d, natConfig).Some?
    ensures var ops := CreateNatRule(d, natConfig).value;
      var number := CreateNumber(d, RuleValue(natConfig, "source").value).value;
      ops != [] && ops[|ops| - 1] == Set(Under(NatRoot("source", number), ["translation", "address", SourceTranslation(d)])) &&
      ("translation" !in d ==> ops[|ops| - 1] == Set(Under(NatRoot("source", number), ["translation", "address", "masquerade"])))
  {
  }

  /** A rule created without a number gets one that no existing rule of its kind has. */
  lemma CreatedNumberIsFresh(d: Payload, natConfig: Entries, key: string)
    requires ValidKind(RequestedKind(d)) && Given(d, "rule_number") == ""
    requires CreateNatRule(d, natConfig).Some?
    requires RuleValue(natConfig, RequestedKind(d)).value.Map?
    requires key in Keys(RuleValue(natConfig, RequestedKind(d)).value.entries)
    ensures ParseInt(key) != ParseInt(CreateNumber(d, RuleValue(natConfig, RequestedKind(d)).value).value)
  {
    var existing := RuleValue(natConfig, RequestedKind(d)).value.entries;
    ParseIntStr(GetNextRuleNumber(existing).value);
    NextRuleNumberIsFresh(existing, key);
  }

  /**
   * A created destination rule whose translation address is "redirect" in any
   * case gets the redirect port and no translation address or port path.
   */
  lemma CreatedRedirectOnlyPort(d: Payload, natConfig: Entries, c: Path)
    requires RequestedKind(d) == "destination" && CreateNatRule(d, natConfig).Some?
    requires Lower(Given(d, "translation_address")) == "redirect"
    requires Set(c) in CreateNatRule(d, natConfig).value
    requires |c| > 4 && c[4] == "translation"
    ensures var base := NatRoot("destination", CreateNumber(d, RuleValue(natConfig, "destination").value).value);
      c == Under(base, ["translation", "redirect", "port", Given(d, "translation_port")])
  {
    var base := NatRoot("destination", CreateNumber(d, RuleValue(natConfig, "destination").value).value);
    var paths := PayloadPaths("destination", base, d);
    var i :| 0 <= i < |paths| && Sets(paths)[i] == Set(c);
    assert c in paths;
    RedirectOnlyPort(base, PayloadDestFields(d), c);
  }

  /**
   * update_nat_rule: one configure_delete of the rule root, then one
   * configure_set per path of the rebuilt rule (with the same translation
   * default as create), each call in this order. A type other than source or
   * destination sends nothing.
   */
  function UpdateNatRule(kind: string, number: string, d: Payload): seq<Op>
  {
    if !ValidKind(kind) then []
    else Deletes([NatRoot(kind, number)]) + Sets(PayloadPaths(kind, NatRoot(kind, number), d))
  }

  /**
   * An update replaces the rule: everything under its root goes, then exactly
   * the rebuilt paths are set; an unknown type changes nothing.
   */
  lemma UpdateReplacesRule(kind: string, number: string, d: Payload, store: Store)
    ensures !ValidKind(kind) ==> Run(store, UpdateNatRule(kind, number, d)) == store
    ensures ValidKind(kind) ==>
      var r := UpdateNatRule(kind, number, d);
      DeletesFirst(r) &&
      Run(store, r) == Without(store, [NatRoot(kind, number)]) + Elems(PayloadPaths(kind, NatRoot(kind, number), d))
  {
    if ValidKind(kind) {
      var sets := PayloadPaths(kind, NatRoot(kind, number), d);
      DeletesThenSetsOrdered([NatRoot(kind, number)], sets);
      DeletesThenSets(store, [NatRoot(kind, number)], sets);
    }
  }

  // ---------------------------------------------------------------------------
  // Renumbering after a delete (reorder_rules)

  /** The rule path kind reorder_rules uses: anything but "source" is a destination rule. */
  function PathKind(ruleType: string): (kind: string)
    ensures ValidKind(kind)
  {
    if ruleType == "source" then "source" else "destination"
  }

  /** The numbers already run 100, 101, ... in order. */
  predicate Dense(ns: seq<int>)
  {
    forall i :: 0 <= i < |ns| ==> ns[i] == 100 + i
  }

  /** The needs_reorder loop: some number is not 100 plus its position. */
  method NeedsReorder(ns: seq<int>) returns (needs: bool)
    ensures needs <==> !Dense(ns)
  {
    needs := false;
    var i := 0;
    while i < |ns|
      invariant 0 <= i <= |ns|
      invariant forall j :: 0 <= j < i ==> ns[j] == 100 + j
    {
      if ns[i] != 100 + i {
        needs := true;
        break;
      }
      i := i + 1;
    }
  }

  /** A value read from the tree used as a path token: its text when truthy, else "" (skipped). */
  function TextOf(n: Node): (r: string)
    ensures r != [] <==> Truthy(n)
    ensures n.Leaf? ==> r == n.text
  {
    if Truthy(n) then Str(n) else ""
  }

  /** The paths that re-create a source rule from its configuration: only the listed fields. */
  function RecreateSource(base: Path, rule: Node): (r: Option<seq<Path>>)
    ensures r.Some? ==> AllUnder(r.value, base) && |r.value| <= 4
  {
    if !rule.Map? then Option.None
    else
      var out :- GetDict(rule.entries, "outbound-interface");
      var src :- GetDict(rule.entries, "source");
      var tr :- GetDict(rule.entries, "translation");
      Some(SourceFieldPaths(base, TextOf(Get(rule.entries, "description")), TextOf(Get(out, "name")), TextOf(Get(src, "address"))) +
        Opt(base, ["translation", "address"], TextOf(Get(tr, "address"))))
  }

  /** The destination fields read from the configuration; a truthy redirect must be a dictionary. */
  function ConfigDestFields(rule: Entries): (r: Option<DestFields>)
    ensures r.Some? ==> GetDict(rule, "translation").Some?
    ensures r.Some? ==> r.value.redirect == Truthy(RedirectOf(GetDict(rule, "translation").value))
  {
    var inbound :- GetDict(rule, "inbound-interface");
    var dst :- GetDict(rule, "destination");
    var tr :- GetDict(rule, "translation");
    var redirect := RedirectOf(tr);
    if Truthy(redirect) && !redirect.Map? then Option.None
    else
      var port := if Truthy(redirect) then TextOf(Get(redirect.entries, "port")) else TextOf(Get(tr, "port"));
      Some(DestFields(TextOf(Get(rule, "description")), TextOf(Get(inbound, "name")), TextOf(Get(dst, "address")),
        TextOf(Get(dst, "port")), TextOf(Get(rule, "protocol")), Truthy(redirect), TextOf(Get(tr, "address")), port))
  }

  /** The paths that re-create a rule of the given kind from its configuration. */
  function RecreateRule(kind: string, base: Path, rule: Node): (r: Option<seq<Path>>)
    ensures r.Some? ==> AllUnder(r.value, base)
  {
    if kind == "source" then RecreateSource(base, rule)
    else if !rule.Map? then Option.None
    else
      var f :- ConfigDestFields(rule.entries);
      Some(DestinationPaths(base, f))
  }

  /** The path lies under the root of rule number first + i. */
  predicate InSlot(c: Path, kind: string, first: int, i: int)
  {
    HasPrefix(c, NatRoot(kind, IntStr(first + i)))
  }

  /** Re-create the rules in order, the i-th at number first + i; None when one of them is malformed. */
  function RecreateAll(kind: string, rules: seq<Node>, first: int): Option<seq<Path>>
  {
    if rules == [] then Some([])
    else
      var n := |rules| - 1;
      var init :- RecreateAll(kind, rules[..n], first);
      var last :- RecreateRule(kind, NatRoot(kind, IntStr(first + n)), rules[n]);
      Some(init + last)
  }

  /** One more rule re-created after a prefix that succeeded. */
  lemma RecreateAllStep(kind: string, rules: seq<Node>, first: int, i: int, acc: seq<Path>, p: Option<seq<Path>>)
    requires 0 <= i < |rules| && RecreateAll(kind, rules[..i], first) == Some(acc)
    requires p == RecreateRule(kind, NatRoot(kind, IntStr(first + i)), rules[i])
    ensures RecreateAll(kind, rules[..i + 1], first) == if p.None? then Option.None else Some(acc + p.value)
  {
    assert rules[..i + 1][..i] == rules[..i];
    assert rules[..i + 1][i] == rules[i];
  }

  /** A prefix that fails makes the whole list fail. */
  lemma {:induction false} RecreateAllNoneExtends(kind: string, rules: seq<Node>, first: int, i: int)
    requires 0 <= i <= |rules| && RecreateAll(kind, rules[..i], first).None?
    ensures RecreateAll(kind, rules, first).None?
    decreases |rules| - i
  {
    if i < |rules| {
      assert rules[..i + 1][..i] == rules[..i];
      RecreateAllNoneExtends(kind, rules, first, i + 1);
    } else {
      assert rules[..i] == rules;
    }
  }

  /** Re-creating fails exactly when one of the rules cannot be re-created. */
  lemma {:induction false} RecreateAllSome(kind: string, rules: seq<Node>, first: int)
    ensures RecreateAll(kind, rules, first).Some? <==>
      forall i :: 0 <= i < |rules| ==> RecreateRule(kind, NatRoot(kind, IntStr(first + i)), rules[i]).Some?
  {
    if rules != [] {
      var n := |rules| - 1;
      RecreateAllSome(kind, rules[..n], first);
      var init := RecreateAll(kind, rules[..n], first);
      var last := RecreateRule(kind, NatRoot(kind, IntStr(first + n)), rules[n]);
      assert RecreateAll(kind, rules, first).Some? <==> init.Some? && last.Some?;
      if init.Some? && last.Some? {
        forall i | 0 <= i < |rules| ensures RecreateRule(kind, NatRoot(kind, IntStr(first + i)), rules[i]).Some? {
          if i < n {
            assert rules[..n][i] == rules[i];
          } else {
            assert i == n;
          }
        }
      } else if init.None? {
        var i :| 0 <= i < n && RecreateRule(kind, NatRoot(kind, IntStr(first + i)), rules[..n][i]).None?;
        assert rules[..n][i] == rules[i];
      }
    }
  }

  /** Every re-created path lies under the root of one of the new numbers first .. first + |rules| - 1. */
  lemma {:induction false} RecreatedUnderSlots(kind: string, rules: seq<Node>, first: int)
    requires RecreateAll(kind, rules, first).Some?
    ensures forall c :: c in RecreateAll(kind, rules, first).value ==>
      exists i :: 0 <= i < |rules| && InSlot(c, kind, first, i)
  {
    if rules != [] {
      var n := |rules| - 1;
      var init := RecreateAll(kind, rules[..n], first).value;
      var last := RecreateRule(kind, NatRoot(kind, IntStr(first + n)), rules[n]).value;
      RecreatedUnderSlots(kind, rules[..n], first);
      forall c | c in RecreateAll(kind, rules, first).value
        ensures exists i :: 0 <= i < |rules| && InSlot(c, kind, first, i)
      {
        if c in init {
          var i :| 0 <= i < n && InSlot(c, kind, first, i);
          assert 0 <= i < |rules|;
        } else {
          assert c in last;
          assert InSlot(c, kind, first, n);
        }
      }
    }
  }

  /** existing_rules[str(num)] for each number, in order; None on a KeyError. */
  function RulesInOrder(existing: Entries, ns: seq<int>): (r: Option<seq<Node>>)
    ensures r.Some? ==> |r.value| == |ns|
    ensures r.Some? ==> forall i :: 0 <= i < |ns| ==> NumberedAs(existing, ns[i], r.value[i])
  {
    if ns == [] then Some([])
    else
      var front := ns[..|ns| - 1];
      var init := RulesInOrder(existing, front);
      var last := Lookup(existing, IntStr(ns[|ns| - 1]));
      if init.None? || last.None? then Option.None
      else
        NumberedSnoc(existing, ns, init.value, last.value);
        Some(init.value + [last.value])
  }

  /** existing_rules[str(n)] is `rule`. */
  predicate NumberedAs(existing: Entries, n: int, rule: Node)
  {
    Lookup(existing, IntStr(n)) == Some(rule)
  }

  lemma NumberedSnoc(existing: Entries, ns: seq<int>, init: seq<Node>, last: Node)
    requires ns != [] && |init| == |ns| - 1
    requires forall i :: 0 <= i < |ns| - 1 ==> NumberedAs(existing, ns[..|ns| - 1][i], init[i])
    requires NumberedAs(existing, ns[|ns| - 1], last)
    ensures forall i :: 0 <= i < |ns| ==> NumberedAs(existing, ns[i], (init + [last])[i])
  {
    forall i | 0 <= i < |ns| ensures NumberedAs(existing, ns[i], (init + [last])[i]) {
      if i < |ns| - 1 {
        assert ns[..|ns| - 1][i] == ns[i];
      }
    }
  }

  /** The roots of the rules with the given numbers. */
  function NumberRoots(kind: string, ns: seq<int>): (r: seq<Path>)
    ensures |r| == |ns| && forall i :: 0 <= i < |ns| ==> r[i] == NatRoot(kind, IntStr(ns[i]))
  {
    seq(|ns|, i requires 0 <= i < |ns| => NatRoot(kind, IntStr(ns[i])))
  }

  /** What reorder_rules computes before sending, when it gets that far. */
  datatype Compaction = Compaction(numbers: seq<int>, deletes: seq<Path>, sets: seq<Path>)

  /**
   * The plan of reorder_rules: None when there is nothing to do (no rules, the
   * numbers already run 100, 101, ...) or when building raised (the handler
   * swallows the exception and sends nothing).
   */
  function CompactionPlan(ruleType: string, natConfig: Entries): (r: Option<Compaction>)
    ensures r.Some? ==> RulesOf(natConfig, PathKind(ruleType)).Some?
    ensures r.Some? ==>
      var existing := RulesOf(natConfig, PathKind(ruleType)).value;
      existing != [] && SortedNumbers(Keys(existing)) == Some(r.value.numbers) && !Dense(r.value.numbers) &&
      r.value.deletes == NumberRoots(PathKind(ruleType), r.value.numbers)
  {
    var kind := PathKind(ruleType);
    var existing :- RulesOf(natConfig, kind);
    if existing == [] then Option.None
    else
      var ns :- SortedNumbers(Keys(existing));
      if Dense(ns) then Option.None
      else
        var bodies :- RulesInOrder(existing, ns);
        var sets :- RecreateAll(kind, bodies, 100);
        Some(Compaction(ns, NumberRoots(kind, ns), sets))
  }

  /** reorder_rules: the one batch it sends, deletes first; [] when it sends nothing. */
  function CompactNatRules(ruleType: string, natConfig: Entries): seq<Op>
  {
    match CompactionPlan(ruleType, natConfig)
    case None => []
    case Some(plan) => Deletes(plan.deletes) + Sets(plan.sets)
  }

  /** Rules already numbered 100, 101, ... are left alone. */
  lemma CompactDenseIsNoOp(ruleType: string, natConfig: Entries)
    requires RulesOf(natConfig, PathKind(ruleType)).Some?
    requires SortedNumbers(Keys(RulesOf(natConfig, PathKind(ruleType)).value)).Some?
    requires Dense(SortedNumbers(Keys(RulesOf(natConfig, PathKind(ruleType)).value)).value)
    ensures CompactNatRules(ruleType, natConfig) == []
  {
  }

  /**
   * After the compaction batch, every old rule root is gone with all below it,
   * every recreated path is set, and each lies under one of the roots
   * 100 .. 100 + n - 1, n being the number of rules.
   */
  lemma CompactEffect(ruleType: string, natConfig: Entries, store: Store)
    requires CompactionPlan(ruleType, natConfig).Some?
    ensures var plan := CompactionPlan(ruleType, natConfig).value;
      var ops := CompactNatRules(ruleType, natConfig);
      DeletesFirst(ops) &&
      Run(store, ops) == Without(store, plan.deletes) + Elems(plan.sets) &&
      forall c :: c in plan.sets ==>
        exists i :: 0 <= i < |plan.numbers| && InSlot(c, PathKind(ruleType), 100, i)
  {
    var plan := CompactionPlan(ruleType, natConfig).value;
    DeletesThenSetsOrdered(plan.deletes, plan.sets);
    DeletesThenSets(store, plan.deletes, plan.sets);
    var kind := PathKind(ruleType);
    var existing := RulesOf(natConfig, kind).value;
    var bodies := RulesInOrder(existing, plan.numbers).value;
    assert RecreateAll(kind, bodies, 100) == Some(plan.sets);
    RecreatedUnderSlots(kind, bodies, 100);
  }

  /**
   * reorder_rules as the source runs it: the needs_reorder check, then one
   * loop of deletes over the sorted numbers and one loop re-creating the rules
   * at 100, 101, ...; any failure on the way sends nothing.
   */
  method ReorderRules(ruleType: string, natConfig: Entries) returns (ops: seq<Op>)
    ensures ops == CompactNatRules(ruleType, natConfig)
  {
    var kind := PathKind(ruleType);
    var existing := RulesOf(natConfig, kind);
    if existing.None? || existing.value == [] {
      return [];
    }
    var sorted := SortedNumbers(Keys(existing.value));
    if sorted.None? {
      return [];
    }
    var ns := sorted.value;
    var needs := NeedsReorder(ns);
    if !needs {
      return [];
    }
    var bodies := RulesInOrder(existing.value, ns);
    if bodies.None? {
      return [];
    }
    var deletes := DeleteLoop(kind, ns);
    var sets := RecreateLoop(kind, bodies.value);
    if sets.None? {
      return [];
    }
    ops := Deletes(deletes) + Sets(sets.value);
  }

  /** The delete loop of reorder_rules: one root per sorted number. */
  method DeleteLoop(kind: string, ns: seq<int>) returns (deletes: seq<Path>)
    ensures deletes == NumberRoots(kind, ns)
  {
    deletes := [];
    var i := 0;
    while i < |ns|
      invariant 0 <= i <= |ns|
      invariant deletes == NumberRoots(kind, ns[..i])
    {
      deletes := deletes + [NatRoot(kind, IntStr(ns[i]))];
      i := i + 1;
    }
    assert ns[..i] == ns;
  }

  /** The re-create loop of reorder_rules: the i-th rule at 100 + i; a malformed rule stops it. */
  method RecreateLoop(kind: string, rules: seq<Node>) returns (sets: Option<seq<Path>>)
    ensures sets == RecreateAll(kind, rules, 100)
  {
    var acc: seq<Path> := [];
    var i := 0;
    while i < |rules|
      invariant 0 <= i <= |rules|
      invariant RecreateAll(kind, rules[..i], 100) == Some(acc)
    {
      var paths := RecreateRule(kind, NatRoot(kind, IntStr(100 + i)), rules[i]);
      RecreateAllStep(kind, rules, 100, i, acc, paths);
      if paths.None? {
        RecreateAllNoneExtends(kind, rules, 100, i + 1);
        return Option.None;
      }
      acc := acc + paths.value;
      i := i + 1;
    }
    assert rules[..i] == rules;
    sets := Some(acc);
  }

  // ---------------------------------------------------------------------------
  // Reordering to the client's order (reorder_nat_rules)

  /** The set paths of one rule of the client's list (a destination rule unless the kind is source): only truthy fields, no masquerade default. */
  function ClientRulePaths(kind: string, base: Path, d: Payload): (r: seq<Path>)
    ensures AllUnder(r, base)
  {
    if kind == "source" then
      SourceFieldPaths(base, Given(d, "description"), Given(d, "outbound_interface"), Given(d, "source_address")) +
      Opt(base, ["translation", "address"], Given(d, "translation"))
    else DestinationPaths(base, PayloadDestFields(d))
  }

  /** The batch of each rule of the client's list, the i-th at number 100 + i. */
  function ClientBatches(kind: string, rules: seq<Payload>): (r: seq<seq<Path>>)
    ensures |r| == |rules|
    ensures forall i :: 0 <= i < |rules| ==> r[i] == ClientRulePaths(kind, NewRoot(kind, i), rules[i])
  {
    seq(|rules|, i requires 0 <= i < |rules| => ClientRulePaths(kind, NewRoot(kind, i), rules[i]))
  }

  /** The root of the i-th rule after renumbering: number 100 + i. */
  function NewRoot(kind: string, i: int): (p: Path)
    ensures p == NatRoot(kind, IntStr(100 + i))
  {
    NatRoot(kind, IntStr(100 + i))
  }

  /** The client's rules laid out in list order. */
  function ClientRecreate(kind: string, rules: seq<Payload>): seq<Path>
  {
    Concat(ClientBatches(kind, rules))
  }

  /** The roots of the existing rules, under their own keys, in dictionary order. */
  function KeyRoots(kind: string, keys: seq<string>): (r: seq<Path>)
    ensures |r| == |keys| && forall i :: 0 <= i < |keys| ==> r[i] == NatRoot(kind, keys[i])
  {
    seq(|keys|, i requires 0 <= i < |keys| => NatRoot(kind, keys[i]))
  }

  /**
   * reorder_nat_rules: 400 for an unknown type or an empty list; otherwise one
   * batch deleting every existing rule and re-creating the client's list at
   * 100, 101, ... A malformed rule container is the 500 answer.
   */
  function ReorderNatRules(ruleType: string, rules: seq<Payload>, natConfig: Entries): (r: Checked<seq<Op>>)
    ensures !ValidKind(ruleType) ==> r == Refuse(400, "Invalid rule type")
    ensures ValidKind(ruleType) && rules == [] ==> r == Refuse(400, "No rules provided")
    ensures ValidKind(ruleType) && rules != [] ==> (r.Pass? <==> RulesOf(natConfig, ruleType).Some?)
    ensures r.Pass? ==> ValidKind(ruleType) && rules != [] && RulesOf(natConfig, ruleType).Some?
    ensures r.Pass? ==>
      r.value == Deletes(KeyRoots(ruleType, Keys(RulesOf(natConfig, ruleType).value))) + Sets(ClientRecreate(ruleType, rules))
  {
    if !ValidKind(ruleType) then Refuse(400, "Invalid rule type")
    else if rules == [] then Refuse(400, "No rules provided")
    else
      match RulesOf(natConfig, ruleType)
      case None => Refuse(500, "malformed NAT configuration")
      case Some(existing) => Pass(Deletes(KeyRoots(ruleType, Keys(existing))) + Sets(ClientRecreate(ruleType, rules)))
  }

  /** The batch of reorder_nat_rules built by its two loops: deletes over the keys, then the client's rules. */
  method BuildClientReorder(kind: string, keys: seq<string>, rules: seq<Payload>) returns (ops: seq<Op>)
    ensures ops == Deletes(KeyRoots(kind, keys)) + Sets(ClientRecreate(kind, rules))
  {
    var deletes: seq<Path> := [];
    var i := 0;
    while i < |keys|
      invariant 0 <= i <= |keys|
      invariant deletes == KeyRoots(kind, keys[..i])
    {
      deletes := deletes + [NatRoot(kind, keys[i])];
      i := i + 1;
    }
    assert keys[..i] == keys;
    var sets: seq<Path> := [];
    i := 0;
    while i < |rules|
      invariant 0 <= i <= |rules|
      invariant sets == ClientRecreate(kind, rules[..i])
    {
      var next := ClientBatches(kind, rules[..i + 1]);
      assert next[..i] == ClientBatches(kind, rules[..i]);
      sets := sets + ClientRulePaths(kind, NatRoot(kind, IntStr(100 + i)), rules[i]);
      i := i + 1;
    }
    assert rules[..i] == rules;
    ops := Deletes(deletes) + Sets(sets);
  }

  /** Every path of the layout lies under the root of one of the numbers 100 .. 100 + |rules| - 1. */
  lemma ClientRecreateInSlots(kind: string, rules: seq<Payload>)
    ensures forall c :: c in ClientRecreate(kind, rules) ==> exists i :: 0 <= i < |rules| && InSlot(c, kind, 100, i)
  {
    var batches := ClientBatches(kind, rules);
    forall c | c in ClientRecreate(kind, rules) ensures exists i :: 0 <= i < |rules| && InSlot(c, kind, 100, i) {
      var i :| 0 <= i < |batches| && c in batches[i];
      assert InSlot(c, kind, 100, i);
    }
  }

  /**
   * After an accepted reorder, nothing below an old rule root survives unless
   * it was set again, every path of the i-th client rule is present under
   * number 100 + i, and every set path lies under one of the new roots.
   */
  lemma ReorderNatEffect(ruleType: string, rules: seq<Payload>, natConfig: Entries, store: Store)
    requires ReorderNatRules(ruleType, rules, natConfig).Pass?
    ensures var ops := ReorderNatRules(ruleType, rules, natConfig).value;
      var keys := Keys(RulesOf(natConfig, ruleType).value);
      var sets := ClientRecreate(ruleType, rules);
      var after := Run(store, ops);
      DeletesFirst(ops) &&
      (forall q :: q in after && q !in sets ==> q in store && forall k :: k in keys ==> !HasPrefix(q, NatRoot(ruleType, k))) &&
      (forall i, c :: 0 <= i < |rules| && c in ClientRulePaths(ruleType, NatRoot(ruleType, IntStr(100 + i)), rules[i]) ==> c in after) &&
      (forall c :: c in sets ==> exists i :: 0 <= i < |rules| && InSlot(c, ruleType, 100, i))
  {
    var keys := Keys(RulesOf(natConfig, ruleType).value);
    var roots := KeyRoots(ruleType, keys);
    var sets := ClientRecreate(ruleType, rules);
    DeletesThenSetsOrdered(roots, sets);
    DeletesThenSets(store, roots, sets);
    forall q | q in Run(store, Deletes(roots) + Sets(sets)) && q !in sets
      ensures q in store && forall k :: k in keys ==> !HasPrefix(q, NatRoot(ruleType, k))
    {
      assert q in Without(store, roots);
      forall k | k in keys ensures !HasPrefix(q, NatRoot(ruleType, k)) {
        var j :| 0 <= j < |keys| && keys[j] == k;
        assert roots[j] == NatRoot(ruleType, k);
      }
    }
    forall i, c | 0 <= i < |rules| && c in ClientRulePaths(ruleType, NatRoot(ruleType, IntStr(100 + i)), rules[i])
      ensures c in Run(store, Deletes(roots) + Sets(sets))
    {
      assert c in ClientBatches(ruleType, rules)[i];
    }
    ClientRecreateInSlots(ruleType, rules);
  }

  // ---------------------------------------------------------------------------
  // Delete

  /** What delete_nat_rule sends: the delete of the rule root, then the compaction batch. */
  datatype NatDeletion = NatDeletion(deleteCall: Path, compaction: seq<Op>)

  /**
   * delete_nat_rule: 400 for an unknown type; otherwise the rule root is
   * deleted and reorder_rules runs on the configuration read afterwards
   * (`after`).
   */
  function DeleteNatRule(ruleType: string, number: string, after: Entries): (r: Checked<NatDeletion>)
    ensures !ValidKind(ruleType) <==> r == Refuse(400, "Invalid rule type")
    ensures r.Pass? ==> r.value.deleteCall == NatRoot(ruleType, number)
    ensures r.Pass? ==> r.value.compaction == CompactNatRules(ruleType, after)
  {
    if !ValidKind(ruleType) then Refuse(400, "Invalid rule type")
    else Pass(NatDeletion(NatRoot(ruleType, number), CompactNatRules(ruleType, after)))
  }

  /**
   * Deleting a rule removes it with everything below it; when the remaining
   * rules already run 100, 101, ... nothing else is sent.
   */
  lemma DeleteNatRuleEffect(ruleType: string, number: string, after: Entries, store: Store)
    requires DeleteNatRule(ruleType, number, after).Pass?
    ensures forall q :: q in Step(store, Delete(NatRoot(ruleType, number))) ==> !HasPrefix(q, NatRoot(ruleType, number))
    ensures (RulesOf(after, ruleType).Some? && SortedNumbers(Keys(RulesOf(after, ruleType).value)).Some? &&
             Dense(SortedNumbers(Keys(RulesOf(after, ruleType).value)).value)) ==>
      DeleteNatRule(ruleType, number, after).value.compaction == []
  {
    if RulesOf(after, ruleType).Some? && SortedNumbers(Keys(RulesOf(after, ruleType).value)).Some? &&
      Dense(SortedNumbers(Keys(RulesOf(after, ruleType).value)).value)
    {
      assert PathKind(ruleType) == ruleType;
      CompactDenseIsNoOp(ruleType, after);
    }
  }
}
