/**
 * The browser-side helpers of the firewall rule editor: value normalisation and
 * display, HTML escaping, the next rule number offered by the add form, the
 * payload normalisation applied before a rule is sent, the mapping of a rule
 * received from the server, and the ordering of zone pairs.
 *
 * JavaScript values are modelled as optional strings: None is null or undefined.
 */
module JsFirewall {
  import opened Wrappers
  import opened Text
  import opened Numbers
  import opened Sorting
  import FirewallRules

  // ---------------------------------------------------------------------------
  // Constants of the rule editor

  const AnyLabel := "Any"
  const AllLabel := "All"

  /** The protocols a rule with ports may carry, and the one substituted otherwise. */
  datatype PortProtocols = PortProtocols(allowed: seq<string>, default: string)

  const EditorProtocols := PortProtocols(["tcp", "udp", "tcp_udp"], "tcp_udp")

  const FirstRuleNumber := 100

  // ---------------------------------------------------------------------------
  // Normalisation and display

  /** normalizeValue: String(value ?? '').trim() */
  function NormalizeValue(v: Option<string>): (r: string)
    ensures v.None? ==> r == []
    ensures r == [] || (!IsSpace(r[0]) && !IsSpace(r[|r| - 1]))
  {
    Strip(v.GetOr(""))
  }

  /** isAnyValue: blank or "any" in any letter case. */
  predicate IsAnyValue(v: Option<string>)
  {
    var n := Lower(NormalizeValue(v));
    n == "" || n == "any"
  }

  /** isAllProtocol: blank, "any" or "all" in any letter case. */
  predicate IsAllProtocol(v: Option<string>)
  {
    var n := Lower(NormalizeValue(v));
    n == "" || n == "any" || n == "all"
  }

  /** Every value shown as "Any" for an endpoint is shown as "All" for a protocol. */
  lemma AnyIsAllProtocol(v: Option<string>)
    requires IsAnyValue(v)
    ensures IsAllProtocol(v)
  {
  }

  /** A missing value means any endpoint and all protocols. */
  lemma MissingIsAny()
    ensures IsAnyValue(None) && IsAllProtocol(None)
  {
    assert NormalizeValue(None) == [];
    assert Lower([]) == [];
  }

  lemma LowerEmpty(s: string)
    ensures Lower(s) == [] <==> s == []
  {
    assert |Lower(s)| == |s|;
  }

  /** formatProtocolDisplay: the "All" label, or the value itself; never blank. */
  function FormatProtocolDisplay(v: Option<string>): (r: string)
    ensures r == AllLabel <==> IsAllProtocol(v) || NormalizeValue(v) == AllLabel
    ensures !IsAllProtocol(v) ==> r == NormalizeValue(v)
    ensures r != []
  {
    LowerEmpty(NormalizeValue(v));
    if IsAllProtocol(v) then AllLabel else NormalizeValue(v)
  }

  /** formatEndpointDisplay: the "Any" label, or the value itself; never blank. */
  function FormatEndpointDisplay(v: Option<string>): (r: string)
    ensures r == AnyLabel <==> IsAnyValue(v) || NormalizeValue(v) == AnyLabel
    ensures !IsAnyValue(v) ==> r == NormalizeValue(v)
    ensures r != []
  {
    LowerEmpty(NormalizeValue(v));
    if IsAnyValue(v) then AnyLabel else NormalizeValue(v)
  }

  /** formatPortDisplay: the same rule as an endpoint. */
  function FormatPortDisplay(v: Option<string>): (r: string)
    ensures r == FormatEndpointDisplay(v)
    ensures r != []
  {
    FormatEndpointDisplay(v)
  }

  /** A value the rule editor has already stripped is displayed as it is unless it means "any". */
  lemma DisplayKeepsText(s: string)
    requires Strip(s) == s && !IsAnyValue(Some(s))
    ensures FormatEndpointDisplay(Some(s)) == s
  {
  }

  // ---------------------------------------------------------------------------
  // HTML escaping

  /** The entity written for one character, or the character itself. */
  function EscapeChar(c: char): (r: string)
    ensures |r| >= 1
  {
    match c
    case '&' => "&amp;"
    case '<' => "&lt;"
    case '>' => "&gt;"
    case '"' => "&quot;"
    case '\'' => "&#39;"
    case _ => [c]
  }

  /** escapeHtml: each of & < > " ' replaced by its entity. */
  function EscapeText(s: string): (r: string)
    ensures '<' !in r && '>' !in r && '"' !in r && '\'' !in r
    ensures |r| >= |s|
  {
    if s == [] then []
    else EscapeChar(s[0]) + EscapeText(s[1..])
  }

  /** escapeHtml(value): a missing value escapes to the empty string. */
  function EscapeHtml(v: Option<string>): (r: string)
    ensures v.None? ==> r == []
    ensures '<' !in r && '>' !in r && '"' !in r && '\'' !in r
  {
    EscapeText(v.GetOr(""))
  }

  /** Decoding of the five entities, the inverse the browser applies when it renders. */
  function Unescape(s: string): string
  {
    if s == [] then []
    else if s[0] != '&' then [s[0]] + Unescape(s[1..])
    else if StartsWith(s, "&amp;") then "&" + Unescape(s[5..])
    else if StartsWith(s, "&lt;") then "<" + Unescape(s[4..])
    else if StartsWith(s, "&gt;") then ">" + Unescape(s[4..])
    else if StartsWith(s, "&quot;") then "\"" + Unescape(s[6..])
    else if StartsWith(s, "&#39;") then "'" + Unescape(s[5..])
    else "&" + Unescape(s[1..])
  }

  lemma UnescapePlain(c: char, rest: string)
    requires c != '&'
    ensures Unescape([c] + rest) == [c] + Unescape(rest)
  {
    assert ([c] + rest)[1..] == rest;
  }

  lemma UnescapeAmp(rest: string)
    ensures Unescape("&amp;" + rest) == "&" + Unescape(rest)
  {
    var s := "&amp;" + rest;
    assert s[..5] == "&amp;" && s[5..] == rest;
  }

  lemma UnescapeLt(rest: string)
    ensures Unescape("&lt;" + rest) == "<" + Unescape(rest)
  {
    var s := "&lt;" + rest;
    assert s[1] == 'l';
    assert s[..4] == "&lt;" && s[4..] == rest;
  }

  lemma UnescapeGt(rest: string)
    ensures Unescape("&gt;" + rest) == ">" + Unescape(rest)
  {
    var s := "&gt;" + rest;
    assert s[1] == 'g';
    assert s[..4] == "&gt;" && s[4..] == rest;
  }

  lemma UnescapeQuot(rest: string)
    ensures Unescape("&quot;" + rest) == "\"" + Unescape(rest)
  {
    var s := "&quot;" + rest;
    assert s[1] == 'q';
    assert s[..6] == "&quot;" && s[6..] == rest;
  }

  lemma UnescapeApos(rest: string)
    ensures Unescape("&#39;" + rest) == "'" + Unescape(rest)
  {
    var s := "&#39;" + rest;
    assert s[1] == '#';
    assert s[..5] == "&#39;" && s[5..] == rest;
  }

  lemma UnescapeChar(c: char, rest: string)
    ensures Unescape(EscapeChar(c) + rest) == [c] + Unescape(rest)
  {
    match c
    case '&' => UnescapeAmp(rest);
    case '<' => UnescapeLt(rest);
    case '>' => UnescapeGt(rest);
    case '"' => UnescapeQuot(rest);
    case '\'' => UnescapeApos(rest);
    case _ => UnescapePlain(c, rest);
  }

  /** Rendering an escaped text shows exactly the original text. */
  lemma {:induction false} UnescapeEscape(s: string)
    ensures Unescape(EscapeText(s)) == s
  {
    if s != [] {
      UnescapeEscape(s[1..]);
      UnescapeChar(s[0], EscapeText(s[1..]));
      assert s == [s[0]] + s[1..];
    }
  }

  /** Two texts escape alike only when they are equal. */
  lemma EscapeInjective(a: string, b: string)
    requires EscapeText(a) == EscapeText(b)
    ensures a == b
  {
    UnescapeEscape(a);
    UnescapeEscape(b);
  }

  /** The text from position `i` on starts with one of the five entities. */
  predicate EntityAt(s: string, i: int)
    requires 0 <= i <= |s|
  {
    var t := s[i..];
    StartsWith(t, "&amp;") || StartsWith(t, "&lt;") || StartsWith(t, "&gt;") || StartsWith(t, "&quot;") || StartsWith(t, "&#39;")
  }

  /** Every ampersand of an escaped text begins an entity. */
  predicate AmpersandsAreEntities(s: string)
  {
    forall i :: 0 <= i < |s| && s[i] == '&' ==> EntityAt(s, i)
  }

  lemma EscapeCharAmpersands(c: char, rest: string)
    requires AmpersandsAreEntities(rest)
    ensures AmpersandsAreEntities(EscapeChar(c) + rest)
  {
    var e := EscapeChar(c);
    var s := e + rest;
    forall i | 0 <= i < |s| && s[i] == '&' ensures EntityAt(s, i) {
      if i < |e| {
        assert i == 0 && s[i..] == e + rest;
        assert (e + rest)[..|e|] == e;
      } else {
        assert s[i..] == rest[i - |e|..];
        assert rest[i - |e|] == '&';
        assert EntityAt(rest, i - |e|);
      }
    }
  }

  /** escapeHtml leaves no bare ampersand: each one starts &amp; &lt; &gt; &quot; or &#39;. */
  lemma {:induction false} EscapeTextAmpersands(s: string)
    ensures AmpersandsAreEntities(EscapeText(s))
  {
    if s != [] {
      EscapeTextAmpersands(s[1..]);
      EscapeCharAmpersands(s[0], EscapeText(s[1..]));
    }
  }

  // ---------------------------------------------------------------------------
  // Rules as the editor holds them

  /** cloneRules: (rules || []) copied rule by rule; rules are values here. */
  function CloneRules<T>(rules: Option<seq<T>>): (r: seq<T>)
    ensures rules.None? ==> r == []
    ensures rules.Some? ==> |r| == |rules.value| && forall i :: 0 <= i < |r| ==> r[i] == rules.value[i]
  {
    rules.GetOr([])
  }

  /** A rule received from the server: its fields as text. */
  type RawRule = seq<(string, string)>

  /** A rule in the editor: `id` and `number` are both the text of the rule number. */
  datatype Rule = Rule(id: string, number: string, fields: RawRule)

  /** String(rule.number): the field's text, "undefined" when it is missing. */
  function NumberText(raw: RawRule): string
  {
    if raw == [] then "undefined"
    else if raw[0].0 == "number" then raw[0].1
    else NumberText(raw[1..])
  }

  /** mapRule */
  function MapRule(raw: RawRule): (r: Rule)
    ensures r.id == r.number && r.fields == raw
  {
    var n := NumberText(raw);
    Rule(n, n, raw)
  }

  function MapRules(raws: seq<RawRule>): (r: seq<Rule>)
    ensures |r| == |raws|
    ensures forall i :: 0 <= i < |r| ==> r[i] == MapRule(raws[i])
  {
    seq(|raws|, i requires 0 <= i < |raws| => MapRule(raws[i]))
  }

  /** The ids of a rule list, in order: the order submitted for a reorder. */
  function Ids(rules: seq<Rule>): (r: seq<string>)
    ensures |r| == |rules|
    ensures forall i :: 0 <= i < |r| ==> r[i] == rules[i].id
  {
    seq(|rules|, i requires 0 <= i < |rules| => rules[i].id)
  }

  /** The ids of mapped rules are their numbers, in the order received. */
  lemma MappedIds(raws: seq<RawRule>)
    ensures forall i :: 0 <= i < |raws| ==> Ids(MapRules(raws))[i] == NumberText(raws[i])
  {
  }

  // ---------------------------------------------------------------------------
  // The next rule number

  /** The leading run of ASCII digits of `s`. */
  function DigitRun(s: string): (r: string)
    ensures |r| <= |s| && r == s[..|r|] && AllDigits(r)
    ensures |r| < |s| ==> !IsDigit(s[|r|])
  {
    if s == [] || !IsDigit(s[0]) then []
    else [s[0]] + DigitRun(s[1..])
  }

  /**
   * parseInt(s, 10): leading whitespace skipped, one optional sign, then the
   * longest run of digits; anything after it is ignored. No digit gives NaN (None).
   */
  function JsParseInt(s: string): (r: Option<int>)
  {
    var t := TrimLeft(s);
    var signed := t != [] && (t[0] == '-' || t[0] == '+');
    var body := if signed then t[1..] else t;
    var run := DigitRun(body);
    if run == [] then None
    else if signed && t[0] == '-' then Some(0 - DigitsValue(run))
    else Some(DigitsValue(run))
  }

  lemma DigitRunAll(s: string)
    requires AllDigits(s)
    ensures DigitRun(s) == s
  {
    if s != [] {
      DigitRunAll(s[1..]);
    }
  }

  lemma NatStrDigits(n: nat)
    ensures NatStr(n) != [] && AllDigits(NatStr(n))
  {
    if n >= 10 {
      NatStrDigits(n / 10);
    }
  }

  /** parseInt reads back every number the editor prints. */
  lemma JsParseIntNatStr(n: nat)
    ensures JsParseInt(NatStr(n)) == Some(n)
  {
    NatStrDigits(n);
    var s := NatStr(n);
    assert !IsSpace(s[0]);
    assert TrimLeft(s) == s;
    DigitRunAll(s);
    DigitsValueNatStr(n);
  }

  lemma DigitRunStops(d: string, tail: string)
    requires AllDigits(d) && tail != [] && !IsDigit(tail[0])
    ensures DigitRun(d + tail) == d
  {
    if d != [] {
      assert (d + tail)[1..] == d[1..] + tail;
      DigitRunStops(d[1..], tail);
    }
  }

  /** parseInt ignores what follows the digits: "12abc" reads as 12, where int() refuses it. */
  lemma JsParseIntIgnoresTail(n: nat, tail: string)
    requires tail != [] && !IsDigit(tail[0])
    ensures JsParseInt(NatStr(n) + tail) == Some(n)
  {
    NatStrDigits(n);
    var s := NatStr(n) + tail;
    assert s[0] == NatStr(n)[0] && !IsSpace(s[0]);
    assert TrimLeft(s) == s;
    DigitRunStops(NatStr(n), tail);
    DigitsValueNatStr(n);
  }

  /** The rule numbers parseInt accepts, in order. */
  function ParsedNumbers(numbers: seq<string>): (r: seq<int>)
    ensures forall x :: x in r <==> exists i :: 0 <= i < |numbers| && JsParseInt(numbers[i]) == Some(x)
  {
    if numbers == [] then []
    else
      var rest := ParsedNumbers(numbers[1..]);
      assert forall i :: 1 <= i < |numbers| ==> numbers[i] == numbers[1..][i - 1];
      match JsParseInt(numbers[0])
      case Some(x) => [x] + rest
      case None => rest
  }

  lemma ParsedHas(numbers: seq<string>, i: int)
    requires 0 <= i < |numbers|
    ensures JsParseInt(numbers[i]).Some? ==> JsParseInt(numbers[i]).value in ParsedNumbers(numbers)
  {
  }

  /** Some rule number is one parseInt accepts. */
  predicate AnyParsed(numbers: seq<string>)
  {
    exists i :: 0 <= i < |numbers| && JsParseInt(numbers[i]).Some?
  }

  /**
   * computeNextRuleNumber: 100 when there are no rules or none has a number
   * parseInt accepts, otherwise one more than the largest such number.
   */
  function ComputeNextRuleNumber(numbers: Option<seq<string>>): (r: int)
    ensures numbers.None? ==> r == FirstRuleNumber
  {
    if numbers.None? || numbers.value == [] then FirstRuleNumber
    else
      var parsed := ParsedNumbers(numbers.value);
      if parsed == [] then FirstRuleNumber else MaxOf(parsed) + 1
  }

  lemma ParsedNonEmptyAny(numbers: seq<string>)
    ensures ParsedNumbers(numbers) != [] ==> AnyParsed(numbers)
  {
    if ParsedNumbers(numbers) != [] {
      assert ParsedNumbers(numbers)[0] in ParsedNumbers(numbers);
    }
  }

  /** Without a number parseInt accepts, the first rule number is offered. */
  lemma NextRuleNumberDefault(numbers: seq<string>)
    requires !AnyParsed(numbers)
    ensures ComputeNextRuleNumber(Some(numbers)) == FirstRuleNumber
  {
    ParsedNonEmptyAny(numbers);
  }

  /** The number offered is above every number parseInt accepts. */
  lemma NextRuleNumberAboveAll(numbers: seq<string>, k: int)
    requires 0 <= k < |numbers| && JsParseInt(numbers[k]).Some?
    ensures JsParseInt(numbers[k]).value < ComputeNextRuleNumber(Some(numbers))
  {
    ParsedHas(numbers, k);
  }

  /** With some number parseInt accepts, the number offered is one more than one of them. */
  lemma NextRuleNumberSuccessor(numbers: seq<string>)
    requires AnyParsed(numbers)
    ensures exists i :: 0 <= i < |numbers| && JsParseInt(numbers[i]) == Some(ComputeNextRuleNumber(Some(numbers)) - 1)
  {
    var i :| 0 <= i < |numbers| && JsParseInt(numbers[i]).Some?;
    ParsedHas(numbers, i);
    var parsed := ParsedNumbers(numbers);
    var m := MaxOf(parsed);
    NextRuleNumberIsMax(numbers);
    ParsedFrom(numbers, m);
  }

  lemma NextRuleNumberIsMax(numbers: seq<string>)
    requires ParsedNumbers(numbers) != []
    ensures ComputeNextRuleNumber(Some(numbers)) == MaxOf(ParsedNumbers(numbers)) + 1
  {
  }

  lemma ParsedFrom(numbers: seq<string>, x: int)
    requires x in ParsedNumbers(numbers)
    ensures exists j :: 0 <= j < |numbers| && JsParseInt(numbers[j]) == Some(x)
  {
  }

  /** The number offered for a new rule is not the number of any existing rule. */
  lemma NextRuleNumberUnused(numbers: seq<string>, i: int)
    requires 0 <= i < |numbers|
    ensures JsParseInt(numbers[i]) != Some(ComputeNextRuleNumber(Some(numbers)))
  {
    if JsParseInt(numbers[i]).Some? {
      NextRuleNumberAboveAll(numbers, i);
    }
  }

  // ---------------------------------------------------------------------------
  // Payload normalisation

  /**
   * normalizePortList: nothing for a missing or empty value; otherwise the
   * comma-separated tokens, stripped of blanks and surrounding quotes, the empty
   * ones dropped, joined by commas; nothing when no token remains.
   */
  function NormalizePortList(v: Option<string>): (r: Option<string>)
    ensures r.None? <==> v.None? || v.value == [] || FirewallRules.SplitPortList(v.value) == []
    ensures r.Some? ==> r.value != [] && Split(r.value, ',') == FirewallRules.SplitPortList(v.value)
  {
    if v.None? || v.value == [] then None
    else
      var tokens := FirewallRules.SplitPortList(v.value);
      if tokens == [] then None
      else
        JoinNonEmpty(tokens, ",");
        SplitJoin(tokens, ',');
        Some(Join(tokens, ","))
  }

  /** A list of clean tokens, as the editor writes it, is left as it is. */
  lemma PortListCleanKept(ts: seq<string>)
    requires ts != [] && forall t :: t in ts ==> FirewallRules.CleanToken(t)
    ensures NormalizePortList(Some(Join(ts, ","))) == Some(Join(ts, ","))
  {
    assert forall t :: t in ts ==> t != [];
    JoinNonEmpty(ts, ",");
    FirewallRules.SplitPortListJoin(ts);
  }

  /** The form fields the normalisation reads; None is an undefined key. */
  datatype RulePayload = RulePayload(
    sourceAddress: Option<string>, destinationAddress: Option<string>, description: Option<string>,
    protocol: Option<string>, sourcePort: Option<string>, destinationPort: Option<string>,
    sourcePortType: Option<string>, sourcePortGroup: Option<string>,
    destinationPortType: Option<string>, destinationPortGroup: Option<string>,
    disabled: Option<bool>, others: seq<(string, string)>)

  /** An empty-string field becomes undefined. */
  function BlankToUndefined(v: Option<string>): (r: Option<string>)
    ensures r.Some? ==> r.value != []
    ensures v != Some("") ==> r == v
  {
    if v == Some("") then None else v
  }

  /** The port-group type is selected and a group is chosen. */
  predicate UsingGroup(portType: Option<string>, group: Option<string>)
  {
    portType == Some("group") && group.Some? && group.value != []
  }

  /** Ports are given: manual ports, or (when `groups` is set) a selected port group. */
  predicate PortsProvided(p: RulePayload, groups: bool)
  {
    p.sourcePort.Some? || p.destinationPort.Some? ||
    (groups && (UsingGroup(p.sourcePortType, p.sourcePortGroup) || UsingGroup(p.destinationPortType, p.destinationPortGroup)))
  }

  /** The protocol a rule with ports is sent with. */
  function PortProtocol(protocol: Option<string>, protos: PortProtocols): (r: string)
    ensures r in protos.allowed || r == protos.default
    ensures Lower(protocol.GetOr("")) in protos.allowed ==> r == Lower(protocol.GetOr(""))
    ensures Lower(protocol.GetOr("")) !in protos.allowed ==> r == protos.default
  {
    var proto := Lower(protocol.GetOr(""));
    if proto in protos.allowed then proto else protos.default
  }

  /**
   * normalizePayload: the blank address, description and protocol fields dropped,
   * both port lists normalised and, when ports are given, the protocol forced to
   * one that carries ports. `groups` is true for the editor that offers port groups.
   */
  function NormalizePayload(p: RulePayload, protos: PortProtocols, groups: bool): (r: RulePayload)
    ensures r.sourceAddress == BlankToUndefined(p.sourceAddress)
    ensures r.destinationAddress == BlankToUndefined(p.destinationAddress)
    ensures r.description == BlankToUndefined(p.description)
    ensures r.sourcePort == NormalizePortList(p.sourcePort)
    ensures r.destinationPort == NormalizePortList(p.destinationPort)
    ensures PortsProvided(r, groups) ==>
      r.protocol.Some? && (r.protocol.value in protos.allowed || r.protocol.value == protos.default)
    ensures !PortsProvided(r, groups) ==> r.protocol == BlankToUndefined(p.protocol)
    ensures r.sourcePortType == p.sourcePortType && r.sourcePortGroup == p.sourcePortGroup
    ensures r.destinationPortType == p.destinationPortType && r.destinationPortGroup == p.destinationPortGroup
    ensures r.disabled == p.disabled && r.others == p.others
  {
    var q := p.(
      sourceAddress := BlankToUndefined(p.sourceAddress),
      destinationAddress := BlankToUndefined(p.destinationAddress),
      description := BlankToUndefined(p.description),
      protocol := BlankToUndefined(p.protocol),
      sourcePort := NormalizePortList(p.sourcePort),
      destinationPort := NormalizePortList(p.destinationPort));
    if PortsProvided(q, groups) then q.(protocol := Some(PortProtocol(q.protocol, protos))) else q
  }

  /** Without port groups, a selected group alone does not force the protocol. */
  lemma GroupOnlyCountsWithGroups(p: RulePayload, protos: PortProtocols)
    requires NormalizePortList(p.sourcePort).None? && NormalizePortList(p.destinationPort).None?
    requires UsingGroup(p.sourcePortType, p.sourcePortGroup)
    ensures PortsProvided(NormalizePayload(p, protos, true), true)
    ensures NormalizePayload(p, protos, false).protocol == BlankToUndefined(p.protocol)
  {
  }

  /** A rule with ports keeps an allowed protocol, lowered, and loses any other. */
  lemma PortRuleProtocol(p: RulePayload, protos: PortProtocols, groups: bool)
    requires NormalizePortList(p.destinationPort).Some?
    ensures NormalizePayload(p, protos, groups).protocol == Some(PortProtocol(BlankToUndefined(p.protocol), protos))
  {
  }

  // ---------------------------------------------------------------------------
  // Zone pairs

  /** A rule set between two zones, listed under its source zone. */
  datatype Pair = Pair(name: string, destination: string)

  function PairKey(p: Pair): (string, string)
  {
    (p.destination, p.name)
  }

  /** Sorted by destination zone, then by name. */
  predicate PairsSorted(ps: seq<Pair>)
  {
    SortedBy(ps, PairKey, PairLe)
  }

  /** The pair sort: by destination, then name, keeping equal pairs in order. */
  function SortPairs(ps: seq<Pair>): (r: seq<Pair>)
    ensures PairsSorted(r) && multiset(r) == multiset(ps) && |r| == |ps|
  {
    PairLeTotal();
    SortBy(ps, PairKey, PairLe)
  }

  /** A pair as the server lists it: the destination may be missing. */
  datatype RawPair = RawPair(name: string, destination: Option<string>)

  function MapPair(e: RawPair): Pair
  {
    Pair(e.name, Upper(e.destination.GetOr("")))
  }

  function MapPairs(entries: seq<RawPair>): (r: seq<Pair>)
    ensures |r| == |entries| && forall i :: 0 <= i < |r| ==> r[i] == MapPair(entries[i])
  {
    seq(|entries|, i requires 0 <= i < |entries| => MapPair(entries[i]))
  }

  /** One zone's pair list from a payload: destinations upper-cased, then sorted. */
  function NormalizePairs(entries: seq<RawPair>): (r: seq<Pair>)
    ensures PairsSorted(r) && multiset(r) == multiset(MapPairs(entries))
  {
    SortPairs(MapPairs(entries))
  }

  /** Every listed pair is kept, with its destination upper-cased. */
  lemma NormalizePairsKeeps(entries: seq<RawPair>, i: int)
    requires 0 <= i < |entries|
    ensures MapPair(entries[i]) in NormalizePairs(entries)
  {
    assert MapPairs(entries)[i] in multiset(MapPairs(entries));
  }

  /** The pairs of a list not named `name`. */
  function Without(ps: seq<Pair>, name: string): (r: seq<Pair>)
    ensures forall p :: p in r <==> p in ps && p.name != name
  {
    if ps == [] then []
    else (if ps[0].name != name then [ps[0]] else []) + Without(ps[1..], name)
  }

  /** The source zone's new list: its other pairs and the placed one, sorted. */
  function PlacedList(groups: map<string, seq<Pair>>, zone: string, name: string, destination: string): (r: seq<Pair>)
    ensures PairsSorted(r)
    ensures multiset(r) == multiset(Without(if zone in groups then groups[zone] else [], name) + [Pair(name, destination)])
  {
    SortPairs(Without(if zone in groups then groups[zone] else [], name) + [Pair(name, destination)])
  }

  /**
   * The zone update of applyFirewallPayload: the rule set `name` is removed from
   * every zone's list and added, with its destination, to its source zone's list,
   * which is then sorted.
   */
  function PlacePair(groups: map<string, seq<Pair>>, zone: string, name: string, destination: string)
    : (r: map<string, seq<Pair>>)
    ensures r.Keys == groups.Keys + {zone}
    ensures r[zone] == PlacedList(groups, zone, name, destination)
  {
    var cleaned := map z | z in groups :: Without(groups[z], name);
    cleaned[zone := PlacedList(groups, zone, name, destination)]
  }

  lemma PlacePairOthers(groups: map<string, seq<Pair>>, zone: string, name: string, destination: string, z: string)
    requires z in groups && z != zone
    ensures PlacePair(groups, zone, name, destination)[z] == Without(groups[z], name)
  {
  }

  /** After the update the rule set is listed once, under its source zone, with its destination. */
  lemma PlacePairListsOnce(groups: map<string, seq<Pair>>, zone: string, name: string, destination: string, z: string, p: Pair)
    requires z in PlacePair(groups, zone, name, destination) && p in PlacePair(groups, zone, name, destination)[z]
    requires p.name == name
    ensures z == zone && p == Pair(name, destination)
  {
    if z == zone {
      var others := Without(if zone in groups then groups[zone] else [], name);
      assert p in multiset(others + [Pair(name, destination)]);
    } else {
      PlacePairOthers(groups, zone, name, destination, z);
    }
  }

  /** The placed pair is in its zone's list, which is sorted; other rule sets stay where they were. */
  lemma PlacePairKeeps(groups: map<string, seq<Pair>>, zone: string, name: string, destination: string)
    ensures PairsSorted(PlacePair(groups, zone, name, destination)[zone])
    ensures Pair(name, destination) in PlacePair(groups, zone, name, destination)[zone]
    ensures forall z, p :: z in groups && p in groups[z] && p.name != name ==> p in PlacePair(groups, zone, name, destination)[z]
  {
    var others := Without(if zone in groups then groups[zone] else [], name);
    assert Pair(name, destination) in multiset(others + [Pair(name, destination)]);
    forall z, p | z in groups && p in groups[z] && p.name != name
      ensures p in PlacePair(groups, zone, name, destination)[z]
    {
      if z == zone {
        assert p in multiset(others + [Pair(name, destination)]);
      } else {
        PlacePairOthers(groups, zone, name, destination, z);
      }
    }
  }

  // ---------------------------------------------------------------------------
  // Zone selection

  predicate HasPairNamed(pairs: seq<Pair>, name: string)
  {
    exists p :: p in pairs && p.name == name
  }

  /** selectZone's choice: the selected rule set if the zone lists it, else the zone's first, else none. */
  function SelectTarget(selected: Option<string>, pairs: seq<Pair>): (r: Option<string>)
    ensures r.None? <==> pairs == []
    ensures r.Some? ==> HasPairNamed(pairs, r.value)
    ensures selected.Some? && HasPairNamed(pairs, selected.value) ==> r == selected
    ensures !(selected.Some? && HasPairNamed(pairs, selected.value)) && pairs != [] ==> r == Some(pairs[0].name)
  {
    if selected.Some? && HasPairNamed(pairs, selected.value) then selected
    else if pairs != [] then
      assert pairs[0] in pairs;
      Some(pairs[0].name)
    else None
  }
}
