/**
 * The per-interface firewall helpers: the sanitised interface token, the
 * firewall name derived from an interface description, the description
 * marker that ties a firewall to its interface, the global state-policy
 * fixes, and the set-up and tear-down command lists.
 *
 * What the device reports (the global options and the firewall names) is a
 * parameter; applying the lists is Device.ConfigureSet / ConfigureDelete.
 */
module IfaceFirewall {
  import opened Wrappers
  import opened Text
  import opened ConfigTree
  import opened Paths
  import opened Device
  import opened IfaceUtils

  // ---------------------------------------------------------------------------
  // _sanitize_token

  /** The characters of a sanitised token: [a-z0-9_-]. */
  predicate TokenChar(c: char)
  {
    IsLowerAlpha(c) || IsDigit(c) || c == '_' || c == '-'
  }

  /** The characters that keep a token from being empty: letters, digits and "_". */
  predicate WordChar(c: char)
  {
    IsAlnum(c) || c == '_'
  }

  /** Two dashes in a row at position i. */
  predicate DashPair(s: string, i: int)
    requires 0 <= i < |s| - 1
  {
    s[i] == '-' && s[i + 1] == '-'
  }

  predicate NoDoubleDash(s: string)
  {
    forall i :: 0 <= i < |s| - 1 ==> !DashPair(s, i)
  }

  /** A token as _sanitize_token returns it. */
  predicate CleanToken(s: string)
  {
    s != [] && AllToken(s) && NoDoubleDash(s) && s[0] != '-' && s[|s| - 1] != '-'
  }

  predicate AllToken(s: string) { forall i :: 0 <= i < |s| ==> TokenChar(s[i]) }

  predicate AllSafe(s: string) { forall i :: 0 <= i < |s| ==> SafeChar(s[i]) }

  predicate NoSpace(s: string) { forall i :: 0 <= i < |s| ==> !IsSpace(s[i]) }

  /**
   * re.sub(r"-{2,}", "-", s): every run of dashes becomes one dash.
   * `afterDash` says the output so far ends in a dash.
   */
  function CollapseDashes(s: string, afterDash: bool): (r: string)
    ensures forall c :: c in r ==> c in s
    ensures NoDoubleDash(r)
    ensures afterDash && r != [] ==> r[0] != '-'
  {
    if s == [] then []
    else if s[0] == '-' then
      var rest := CollapseDashes(s[1..], true);
      if afterDash then rest
      else
        assert forall i :: 0 < i < |"-" + rest| - 1 ==> DashPair("-" + rest, i) == DashPair(rest, i - 1);
        "-" + rest
    else
      var rest := CollapseDashes(s[1..], false);
      assert forall i :: 0 < i < |[s[0]] + rest| - 1 ==> DashPair([s[0]] + rest, i) == DashPair(rest, i - 1);
      [s[0]] + rest
  }

  /** The dash-stripping of a string without doubled dashes has none either. */
  lemma {:induction false} StripDashesKeepsSingle(s: string)
    requires NoDoubleDash(s)
    ensures NoDoubleDash(StripChars(s, {'-'}))
    decreases |s|
  {
    if s != [] {
      if s[0] == '-' {
        NoDoubleDashSlice(s, 1, |s|);
        assert s[1..|s|] == s[1..];
        StripDashesKeepsSingle(s[1..]);
      } else if s[|s| - 1] == '-' {
        NoDoubleDashSlice(s, 0, |s| - 1);
        assert s[0..|s| - 1] == s[..|s| - 1];
        StripDashesKeepsSingle(s[..|s| - 1]);
      }
    }
  }

  lemma NoDoubleDashSlice(s: string, a: int, b: int)
    requires NoDoubleDash(s) && 0 <= a <= b <= |s|
    ensures NoDoubleDash(s[a..b])
  {
    forall i | 0 <= i < |s[a..b]| - 1 ensures !DashPair(s[a..b], i) {
      assert !DashPair(s, a + i);
    }
  }

  /** Each step of the clean-up, for one input string. */
  function Clean(s: string): string
  {
    StripChars(CollapseDashes(ReplaceRuns(Lower(Strip(s)), false), false), {'-'})
  }

  /** The unsafe runs become dashes; everything else is copied. */
  lemma {:induction false} ReplaceRunsFrom(s: string, inRun: bool)
    ensures forall c :: c in ReplaceRuns(s, inRun) ==> c == '-' || c in s
    ensures forall c :: c in s && SafeChar(c) ==> c in ReplaceRuns(s, inRun)
  {
    if s != [] {
      ReplaceRunsFrom(s[1..], !SafeChar(s[0]));
      assert forall c :: c in s <==> c == s[0] || c in s[1..];
    }
  }

  /** Characters other than dashes pass through the run collapse. */
  lemma {:induction false} CollapseKeeps(s: string, afterDash: bool)
    ensures forall c :: c in s && c != '-' ==> c in CollapseDashes(s, afterDash)
  {
    if s != [] {
      CollapseKeeps(s[1..], s[0] == '-');
      assert forall c :: c in s <==> c == s[0] || c in s[1..];
    }
  }

  /** Characters other than dashes survive the dash stripping. */
  lemma {:induction false} StripDashesKeeps(s: string)
    ensures forall c :: c in s && c != '-' ==> c in StripChars(s, {'-'})
    decreases |s|
  {
    if s != [] {
      if s[0] == '-' {
        StripDashesKeeps(s[1..]);
        assert forall c :: c in s <==> c == s[0] || c in s[1..];
      } else if s[|s| - 1] == '-' {
        StripDashesKeeps(s[..|s| - 1]);
        assert s == s[..|s| - 1] + [s[|s| - 1]];
      }
    }
  }

  /** Characters other than whitespace survive str.strip(). */
  lemma StripKeeps(s: string, i: int)
    requires 0 <= i < |s| && !IsSpace(s[i])
    ensures s[i] in Strip(s)
  {
    var l := TrimLeft(s);
    var d := |s| - |l|;
    assert d <= i;
    assert l[i - d] == s[i];
    var r := TrimRight(l);
    assert !IsSpace(l[i - d]);
    assert i - d < |r|;
    assert r[i - d] == s[i];
    assert Strip(s) == r;
  }

  /** A word character of the input leaves a (lowered) word character in the clean-up. */
  lemma CleanKeepsWord(s: string, i: int)
    requires 0 <= i < |s| && WordChar(s[i])
    ensures WordChar(LowerChar(s[i])) && LowerChar(s[i]) in Clean(s)
  {
    var c := s[i];
    StripKeeps(s, i);
    var t := Strip(s);
    var j :| 0 <= j < |t| && t[j] == c;
    var l := Lower(t);
    assert l[j] == LowerChar(c);
    ReplaceRunsFrom(l, false);
    var rr := ReplaceRuns(l, false);
    var lc := LowerChar(c);
    assert WordChar(lc) && SafeChar(lc) && lc != '-';
    assert lc in l;
    assert lc in rr;
    CollapseKeeps(rr, false);
    var cd := CollapseDashes(rr, false);
    assert lc in cd;
    StripDashesKeeps(cd);
    assert Clean(s) == StripChars(cd, {'-'});
  }

  /** A non-empty clean-up comes from a letter, digit or underscore of the input. */
  lemma CleanFromWord(s: string)
    requires Clean(s) != []
    ensures HasWord(s)
  {
    var r := Clean(s);
    var t := Strip(s);
    var l := Lower(t);
    ReplaceRunsFrom(l, false);
    assert r[0] != '-' && r[0] in CollapseDashes(ReplaceRuns(l, false), false);
    assert r[0] in l;
    var j :| 0 <= j < |l| && l[j] == r[0];
    assert SafeChar(l[j]) && l[j] != '-';
    assert WordChar(t[j]);
    assert t[j] in s;
  }

  predicate HasWord(s: string)
  {
    exists i :: 0 <= i < |s| && WordChar(s[i])
  }

  /** The clean-up of a string is empty exactly when it has no letter, digit or underscore. */
  lemma CleanEmptyIff(s: string)
    ensures Clean(s) == [] <==> !HasWord(s)
  {
    if Clean(s) != [] {
      CleanFromWord(s);
    }
    if HasWord(s) {
      var i :| 0 <= i < |s| && WordChar(s[i]);
      CleanKeepsWord(s, i);
    }
  }

  /** Every character of the clean-up is a token character. */
  lemma CleanChar(s: string, c: char)
    requires c in Clean(s)
    ensures TokenChar(c)
  {
    var t := Strip(s);
    var l := Lower(t);
    var rr := ReplaceRuns(l, false);
    var cd := CollapseDashes(rr, false);
    assert c in cd by {
      assert Clean(s) == StripChars(cd, {'-'});
    }
    assert c in rr;
    if c != '-' {
      assert c in l by {
        ReplaceRunsFrom(l, false);
      }
      var j :| 0 <= j < |l| && l[j] == c;
      assert !IsUpperAlpha(c) by {
        LowerCharNotUpper(t[j]);
      }
      assert SafeChar(c);
    }
  }

  lemma LowerCharNotUpper(x: char)
    ensures !IsUpperAlpha(LowerChar(x))
  {
  }

  /** Whatever the input, a non-empty clean-up is a clean token. */
  lemma CleanShape(s: string)
    requires Clean(s) != []
    ensures CleanToken(Clean(s))
  {
    assert NoDoubleDash(Clean(s)) by {
      StripDashesKeepsSingle(CollapseDashes(ReplaceRuns(Lower(Strip(s)), false), false));
    }
    assert AllToken(Clean(s)) by {
      forall i | 0 <= i < |Clean(s)| ensures TokenChar(Clean(s)[i]) {
        CleanChar(s, Clean(s)[i]);
      }
    }
  }

  /** A clean token comes out of the clean-up unchanged. */
  lemma CleanOfClean(s: string)
    requires CleanToken(s)
    ensures Clean(s) == s
  {
    assert Strip(s) == s by {
      StripUnchanged(s);
    }
    assert Lower(s) == s;
    assert ReplaceRuns(s, false) == s by {
      assert forall c :: c in s ==> SafeChar(c);
    }
    assert CollapseDashes(s, false) == s by {
      CollapseOfSingle(s, false);
    }
  }

  lemma {:induction false} CollapseOfSingle(s: string, afterDash: bool)
    requires NoDoubleDash(s) && !(afterDash && s != [] && s[0] == '-')
    ensures CollapseDashes(s, afterDash) == s
  {
    if s != [] {
      NoDoubleDashSlice(s, 1, |s|);
      assert s[1..|s|] == s[1..];
      assert |s| > 1 ==> !DashPair(s, 0);
      CollapseOfSingle(s[1..], s[0] == '-');
    }
  }

  const DefaultToken := "interface"

  lemma DefaultTokenClean()
    ensures CleanToken(DefaultToken)
  {
  }

  /**
   * _sanitize_token: the cleaned value, else the cleaned fallback, else
   * "interface". Cleaning strips and lowercases, turns each run of
   * characters outside [a-z0-9_-] into a dash, collapses repeated dashes and
   * strips dashes from both ends.
   */
  function SanitizeToken(value: Option<string>, fallback: Option<string>): (r: string)
    ensures CleanToken(r)
  {
    var candidate := Clean(value.GetOr(""));
    if candidate != [] then CleanShape(value.GetOr("")); candidate
    else
      var backup := Clean(fallback.GetOr(""));
      if backup != [] then CleanShape(fallback.GetOr("")); backup
      else DefaultTokenClean(); DefaultToken
  }

  /**
   * The value's own token is used exactly when it has a letter, digit or
   * underscore; otherwise the fallback's, on the same terms.
   */
  lemma SanitizeTokenSource(value: Option<string>, fallback: Option<string>)
    ensures HasWord(value.GetOr("")) ==> SanitizeToken(value, fallback) == Clean(value.GetOr(""))
    ensures !HasWord(value.GetOr("")) && HasWord(fallback.GetOr("")) ==>
      SanitizeToken(value, fallback) == Clean(fallback.GetOr(""))
    ensures !HasWord(value.GetOr("")) && !HasWord(fallback.GetOr("")) ==> SanitizeToken(value, fallback) == DefaultToken
  {
    var v, f := value.GetOr(""), fallback.GetOr("");
    assert Clean(v) == [] <==> !HasWord(v) by {
      CleanEmptyIff(v);
    }
    assert Clean(f) == [] <==> !HasWord(f) by {
      CleanEmptyIff(f);
    }
  }

  /** Sanitising a sanitised token gives it back, whatever the fallback. */
  lemma SanitizeTokenIdempotent(value: Option<string>, fallback: Option<string>, fallback': Option<string>)
    ensures SanitizeToken(Some(SanitizeToken(value, fallback)), fallback') == SanitizeToken(value, fallback)
  {
    CleanOfClean(SanitizeToken(value, fallback));
  }

  /**
   * The interface's token, as every caller asks for it: with the fallback
   * "interface", whose own clean-up is itself.
   */
  function InterfaceToken(iface: Option<string>): (r: string)
    ensures CleanToken(r)
  {
    var candidate := Clean(iface.GetOr(""));
    if candidate != [] then CleanShape(iface.GetOr("")); candidate
    else DefaultTokenClean(); DefaultToken
  }

  lemma InterfaceTokenIsSanitized(iface: Option<string>)
    ensures InterfaceToken(iface) == SanitizeToken(iface, Some(DefaultToken))
  {
    DefaultTokenClean();
    CleanOfClean(DefaultToken);
  }

  // ---------------------------------------------------------------------------
  // firewall_name_for_description and the marker

  /** re.sub(r"\s+", "-", s): every whitespace run becomes one dash. */
  function SpaceRuns(s: string, inRun: bool): (r: string)
    ensures NoSpace(r)
  {
    if s == [] then []
    else if !IsSpace(s[0]) then [s[0]] + SpaceRuns(s[1..], false)
    else if inRun then SpaceRuns(s[1..], true)
    else "-" + SpaceRuns(s[1..], true)
  }

  lemma {:induction false} SpaceRunsOfSpaceless(s: string, inRun: bool)
    requires NoSpace(s)
    ensures SpaceRuns(s, inRun) == s
  {
    if s != [] {
      SpaceRunsOfSpaceless(s[1..], false);
    }
  }

  /** re.sub(r"[^A-Za-z0-9_-]+", "", s): only the safe characters, in order. */
  function KeepSafe(s: string): (r: string)
    ensures AllSafe(r)
  {
    if s == [] then []
    else if SafeChar(s[0]) then [s[0]] + KeepSafe(s[1..])
    else KeepSafe(s[1..])
  }

  lemma {:induction false} KeepSafeOfSafe(s: string)
    requires AllSafe(s)
    ensures KeepSafe(s) == s
  {
    if s != [] {
      KeepSafeOfSafe(s[1..]);
    }
  }

  /** The name the description gives, before the fallback: empty when nothing usable is left. */
  function DescriptionName(description: Option<string>): string
  {
    KeepSafe(SpaceRuns(Strip(description.GetOr("")), false))
  }

  /**
   * firewall_name_for_description: the description with whitespace runs
   * turned into dashes and other unsafe characters dropped, or the
   * interface's sanitised token when nothing is left.
   */
  function FirewallName(description: Option<string>, fallbackIface: Option<string>): (r: string)
    ensures r != [] && AllSafe(r)
    ensures DescriptionName(description) != [] ==> r == DescriptionName(description)
    ensures DescriptionName(description) == [] ==> r == InterfaceToken(fallbackIface)
  {
    var token := InterfaceToken(fallbackIface);
    var name := DescriptionName(description);
    if name != [] then name
    else
      assert AllSafe(token) by {
        assert AllToken(token);
      }
      token
  }

  /** A description made only of safe characters is itself the firewall name. */
  lemma SafeDescriptionIsName(description: string, fallbackIface: Option<string>)
    requires description != [] && AllSafe(description)
    ensures FirewallName(Some(description), fallbackIface) == description
  {
    StripUnchanged(description);
    SpaceRunsOfSpaceless(description, false);
    KeepSafeOfSafe(description);
    assert DescriptionName(Some(description)) == description;
  }

  /** Using a firewall name as the description gives that name back. */
  lemma FirewallNameIdempotent(description: Option<string>, fallbackIface: Option<string>)
    ensures FirewallName(Some(FirewallName(description, fallbackIface)), fallbackIface) ==
            FirewallName(description, fallbackIface)
  {
    var r := FirewallName(description, fallbackIface);
    SafeDescriptionIsName(r, fallbackIface);
  }

  const MarkerPrefix := "iface:"

  /** _firewall_description_marker */
  function Marker(fallbackIface: Option<string>): string
  {
    MarkerPrefix + InterfaceToken(fallbackIface)
  }

  /** Two interfaces share a marker exactly when they share a sanitised token. */
  lemma MarkerIff(a: Option<string>, b: Option<string>)
    ensures Marker(a) == Marker(b) <==>
      InterfaceToken(a) == InterfaceToken(b)
  {
    MarkerSplit(a);
    MarkerSplit(b);
  }

  lemma MarkerSplit(a: Option<string>)
    ensures Marker(a)[|MarkerPrefix|..] == InterfaceToken(a)
  {
  }

  // ---------------------------------------------------------------------------
  // The global state policy

  /** EXPECTED_STATE_POLICY, in its order. */
  const ExpectedStatePolicy: seq<(string, string)> := [("established", "accept"), ("invalid", "drop"), ("related", "accept")]

  /** The value under a key of the state policy: a dict's entry, or the first list item that is a dict holding the key. */
  function StatePolicyEntryOf(statePolicy: Node, key: string): Node
  {
    match statePolicy
    case Map(m) => Get(m, key)
    case List(xs) => FirstHolding(xs, key)
    case _ => Node.None
  }

  function FirstHolding(xs: seq<Node>, key: string): (r: Node)
    ensures r != Node.None ==> exists i :: 0 <= i < |xs| && xs[i].Map? && key in Keys(xs[i].entries)
  {
    if xs == [] then Node.None
    else if xs[0].Map? && key in Keys(xs[0].entries) then Get(xs[0].entries, key)
    else FirstHolding(xs[1..], key)
  }

  /** _state_policy_entry, with the list loop's early return. */
  method StatePolicyEntry(statePolicy: Node, key: string) returns (entry: Node)
    ensures entry == StatePolicyEntryOf(statePolicy, key)
  {
    match statePolicy {
      case Map(m) =>
        return Get(m, key);
      case List(xs) =>
        var i := 0;
        while i < |xs|
          invariant 0 <= i <= |xs|
          invariant FirstHolding(xs, key) == FirstHolding(xs[i..], key)
        {
          assert xs[i..][1..] == xs[i + 1..];
          if xs[i].Map? && key in Keys(xs[i].entries) {
            return Get(xs[i].entries, key);
          }
          i := i + 1;
        }
        return Node.None;
      case _ =>
        return Node.None;
    }
  }

  /** The action an entry states: under "action" for a dict, the entry itself otherwise. */
  function ActionOf(entry: Node): Option<string>
  {
    if entry.Map? then ExtractLeafValue(Get(entry.entries, "action")) else ExtractLeafValue(entry)
  }

  /** str(action_value).lower() == expected; a missing action reads as "none". */
  predicate PolicyHolds(statePolicy: Node, key: string, expected: string)
  {
    Lower(ActionOf(StatePolicyEntryOf(statePolicy, key)).GetOr("None")) == expected
  }

  function StatePolicyPath(key: string, action: string): Path
  {
    ["firewall", "global-options", "state-policy", key, "action", action]
  }

  /** config.get("state-policy", {}) */
  function StatePolicyOf(config: Entries): Node
  {
    Lookup(config, "state-policy").GetOr(Map([]))
  }

  /** One fix per expected state whose action differs, in the order of the expectations. */
  function MissingFrom(statePolicy: Node, expected: seq<(string, string)>): seq<Path>
  {
    if expected == [] then []
    else
      var n := |expected| - 1;
      var (key, action) := expected[n];
      if PolicyHolds(statePolicy, key, action) then MissingFrom(statePolicy, expected[..n])
      else MissingFrom(statePolicy, expected[..n]) + [StatePolicyPath(key, action)]
  }

  /** _missing_state_policy_commands over the global options the device reported. */
  function MissingStatePolicy(config: Entries): seq<Path>
  {
    MissingFrom(StatePolicyOf(config), ExpectedStatePolicy)
  }

  method MissingStatePolicyCommands(config: Entries) returns (commands: seq<Path>)
    ensures commands == MissingStatePolicy(config)
  {
    var statePolicy := StatePolicyOf(config);
    commands := [];
    var i := 0;
    while i < |ExpectedStatePolicy|
      invariant 0 <= i <= |ExpectedStatePolicy|
      invariant commands == MissingFrom(statePolicy, ExpectedStatePolicy[..i])
    {
      assert ExpectedStatePolicy[..i + 1][..i] == ExpectedStatePolicy[..i];
      var (key, action) := ExpectedStatePolicy[i];
      var entry := StatePolicyEntry(statePolicy, key);
      if Lower(ActionOf(entry).GetOr("None")) != action {
        commands := commands + [StatePolicyPath(key, action)];
      }
      i := i + 1;
    }
    assert ExpectedStatePolicy[..i] == ExpectedStatePolicy;
  }

  /**
   * A fix for a state is emitted exactly when that state is expected and its
   * reported action differs; each fix sets the expected action.
   */
  lemma {:induction false} MissingFromIff(statePolicy: Node, expected: seq<(string, string)>, key: string, action: string)
    ensures StatePolicyPath(key, action) in MissingFrom(statePolicy, expected) <==>
      (key, action) in expected && !PolicyHolds(statePolicy, key, action)
    ensures |MissingFrom(statePolicy, expected)| <= |expected|
  {
    if expected != [] {
      var n := |expected| - 1;
      MissingFromIff(statePolicy, expected[..n], key, action);
      var (k, a) := expected[n];
      StatePolicyPathInjective(key, action, k, a);
      assert (key, action) in expected <==> (key, action) in expected[..n] || (key, action) == (k, a) by {
        assert expected == expected[..n] + [expected[n]];
      }
    }
  }

  lemma StatePolicyPathInjective(key: string, action: string, k: string, a: string)
    ensures StatePolicyPath(key, action) == StatePolicyPath(k, a) <==> key == k && action == a
  {
    if StatePolicyPath(key, action) == StatePolicyPath(k, a) {
      assert StatePolicyPath(key, action)[3] == key && StatePolicyPath(key, action)[5] == action;
    }
  }

  /** Every fix is a state-policy path. */
  lemma {:induction false} MissingFromShape(statePolicy: Node, expected: seq<(string, string)>)
    ensures forall p :: p in MissingFrom(statePolicy, expected) ==>
      |p| == 6 && p[..3] == ["firewall", "global-options", "state-policy"] && p[4] == "action"
  {
    if expected != [] {
      MissingFromShape(statePolicy, expected[..|expected| - 1]);
    }
  }

  /** Every fix lies under firewall global-options. */
  lemma {:induction false} MissingFromRoots(statePolicy: Node, expected: seq<(string, string)>)
    ensures forall p :: p in MissingFrom(statePolicy, expected) ==> |p| >= 2 && p[1] == "global-options"
  {
    if expected != [] {
      var n := |expected| - 1;
      var init := MissingFrom(statePolicy, expected[..n]);
      MissingFromRoots(statePolicy, expected[..n]);
      var p := StatePolicyPath(expected[n].0, expected[n].1);
      assert MissingFrom(statePolicy, expected) == init || MissingFrom(statePolicy, expected) == init + [p];
      assert p[1] == "global-options";
    }
  }

  /** The state policy that the fixes establish: each key a dict with its action. */
  function PolicyNode(expected: seq<(string, string)>): Node
  {
    Map(seq(|expected|, i requires 0 <= i < |expected| => (expected[i].0, Map([("action", Leaf(expected[i].1))]))))
  }

  /** Expectations with distinct states and lower-case actions. */
  predicate WellFormedExpectations(expected: seq<(string, string)>)
  {
    (forall i, j :: 0 <= i < j < |expected| ==> expected[i].0 != expected[j].0) &&
    (forall i :: 0 <= i < |expected| ==> Lower(expected[i].1) == expected[i].1)
  }

  lemma ExpectedWellFormed()
    ensures WellFormedExpectations(ExpectedStatePolicy)
  {
    assert Lower("accept") == "accept";
    assert Lower("drop") == "drop";
  }

  lemma PolicyNodeHolds(expected: seq<(string, string)>, i: int)
    requires WellFormedExpectations(expected) && 0 <= i < |expected|
    ensures PolicyHolds(PolicyNode(expected), expected[i].0, expected[i].1)
  {
    var m := PolicyNode(expected).entries;
    assert UniqueKeys(m);
    LookupAt(m, i);
    assert Lookup([("action", Leaf(expected[i].1))], "action") == Some(Leaf(expected[i].1));
  }

  lemma {:induction false} MissingFromNone(statePolicy: Node, expected: seq<(string, string)>)
    requires forall i :: 0 <= i < |expected| ==> PolicyHolds(statePolicy, expected[i].0, expected[i].1)
    ensures MissingFrom(statePolicy, expected) == []
  {
    if expected != [] {
      MissingFromNone(statePolicy, expected[..|expected| - 1]);
    }
  }

  /** Once the device holds the expected actions, no fix is emitted. */
  lemma PolicyNodeNeedsNothing(config: Entries)
    requires StatePolicyOf(config) == PolicyNode(ExpectedStatePolicy)
    ensures MissingStatePolicy(config) == []
  {
    ExpectedWellFormed();
    forall i | 0 <= i < |ExpectedStatePolicy|
      ensures PolicyHolds(PolicyNode(ExpectedStatePolicy), ExpectedStatePolicy[i].0, ExpectedStatePolicy[i].1)
    {
      PolicyNodeHolds(ExpectedStatePolicy, i);
    }
    MissingFromNone(PolicyNode(ExpectedStatePolicy), ExpectedStatePolicy);
  }

  // ---------------------------------------------------------------------------
  // prepare_firewall_setup / prepare_firewall_teardown

  function NameRoot(name: string): Path { ["firewall", "ipv4", "name", name] }

  /** The set-up list: the state-policy fixes, then the name, its default action and its marker. */
  function SetupCommands(name: string, marker: string, stateConfig: Entries): seq<Path>
  {
    MissingStatePolicy(stateConfig) + [NameRoot(name)] + [NameRoot(name) + ["default-action", "drop"]] +
      [NameRoot(name) + ["description", marker]]
  }

  /** prepare_firewall_setup, given the global options the device reported. */
  method PrepareFirewallSetup(description: Option<string>, fallbackIface: Option<string>, stateConfig: Entries)
    returns (name: string, commands: seq<Path>)
    ensures name == FirewallName(description, fallbackIface)
    ensures commands == SetupCommands(name, Marker(fallbackIface), stateConfig)
  {
    name := FirewallName(description, fallbackIface);
    var fixes := MissingStatePolicyCommands(stateConfig);
    commands := fixes;
    commands := commands + [NameRoot(name)];
    commands := commands + [NameRoot(name) + ["default-action", "drop"]];
    commands := commands + [NameRoot(name) + ["description", Marker(fallbackIface)]];
  }

  /**
   * The set-up list opens with the state-policy fixes, which lie outside the
   * firewall's name, and ends with the name, its drop default and its marker.
   */
  lemma SetupShape(name: string, marker: string, stateConfig: Entries)
    ensures var cs := SetupCommands(name, marker, stateConfig);
      var k := |MissingStatePolicy(stateConfig)|;
      |cs| == k + 3 && k <= 3 &&
      cs[k] == NameRoot(name) && cs[k + 1] == NameRoot(name) + ["default-action", "drop"] &&
      cs[k + 2] == NameRoot(name) + ["description", marker] &&
      (forall i :: 0 <= i < k ==> |cs[i]| == 6 && cs[i][..3] == ["firewall", "global-options", "state-policy"])
  {
    var fixes := MissingStatePolicy(stateConfig);
    var cs := SetupCommands(name, marker, stateConfig);
    assert |fixes| <= 3 by {
      MissingFromIff(StatePolicyOf(stateConfig), ExpectedStatePolicy, "", "");
    }
    assert forall i :: 0 <= i < |fixes| ==> cs[i] == fixes[i];
    forall i | 0 <= i < |fixes|
      ensures |cs[i]| == 6 && cs[i][..3] == ["firewall", "global-options", "state-policy"]
    {
      assert fixes[i] in fixes;
      MissingFromShape(StatePolicyOf(stateConfig), ExpectedStatePolicy);
    }
  }

  /** A firewall entry that carries the marker in its description. */
  predicate Carries(details: Node, marker: string)
  {
    details.Map? && ExtractLeafValue(Get(details.entries, "description")) == Some(marker)
  }

  /** The names the tear-down removes besides the computed one, in the configuration's order. */
  function Matching(config: Entries, name: string, marker: string): seq<Path>
  {
    if config == [] then []
    else
      var n := |config| - 1;
      if config[n].0 == name || Carries(config[n].1, marker) then Matching(config[..n], name, marker) + [NameRoot(config[n].0)]
      else Matching(config[..n], name, marker)
  }

  /** The tear-down list, given the firewall names the device reported (a dict, or a list of dicts merged). */
  function TeardownCommands(name: string, marker: string, names: Node): seq<Path>
  {
    Dedupe([NameRoot(name)] + Matching(MappingOf(names), name, marker))
  }

  /** prepare_firewall_teardown */
  method PrepareFirewallTeardown(description: Option<string>, fallbackIface: Option<string>, names: Node)
    returns (name: string, commands: seq<Path>)
    ensures name == FirewallName(description, fallbackIface)
    ensures commands == TeardownCommands(name, Marker(fallbackIface), names)
  {
    name := FirewallName(description, fallbackIface);
    var config := EnsureMapping(names);
    var found := CollectMatching(config, name, Marker(fallbackIface));
    commands := DedupeCommands(found);
  }

  /** The loop of prepare_firewall_teardown over the reported names. */
  method CollectMatching(config: Entries, name: string, marker: string) returns (found: seq<Path>)
    ensures found == [NameRoot(name)] + Matching(config, name, marker)
  {
    found := [NameRoot(name)];
    var i := 0;
    while i < |config|
      invariant 0 <= i <= |config|
      invariant found == [NameRoot(name)] + Matching(config[..i], name, marker)
    {
      assert config[..i + 1][..i] == config[..i];
      var (entryName, details) := config[i];
      if entryName == name || Carries(details, marker) {
        AppendAssoc([NameRoot(name)], Matching(config[..i], name, marker), [NameRoot(entryName)]);
        found := found + [NameRoot(entryName)];
      }
      i := i + 1;
    }
    assert config[..i] == config;
  }

  lemma {:induction false} MatchingIff(config: Entries, name: string, marker: string, n: string)
    ensures NameRoot(n) in Matching(config, name, marker) <==>
      exists i :: 0 <= i < |config| && config[i].0 == n && (n == name || Carries(config[i].1, marker))
    ensures forall p :: p in Matching(config, name, marker) ==> |p| == 4 && p[..3] == ["firewall", "ipv4", "name"]
  {
    if config != [] {
      var k := |config| - 1;
      MatchingIff(config[..k], name, marker, n);
      if exists i :: 0 <= i < |config| && config[i].0 == n && (n == name || Carries(config[i].1, marker)) {
        var i :| 0 <= i < |config| && config[i].0 == n && (n == name || Carries(config[i].1, marker));
        if i < k {
          assert config[..k][i] == config[i];
        }
      }
    }
  }

  /**
   * The tear-down list starts with the computed name, holds no path twice,
   * and removes exactly the computed name and the reported names that are
   * equal to it or carry the interface's marker.
   */
  lemma TeardownContents(name: string, marker: string, names: Node, n: string)
    ensures var cs := TeardownCommands(name, marker, names);
      cs != [] && cs[0] == NameRoot(name) && NoDuplicates(cs) &&
      (NameRoot(n) in cs <==>
        n == name || exists i :: 0 <= i < |MappingOf(names)| && MappingOf(names)[i].0 == n && Carries(MappingOf(names)[i].1, marker)) &&
      (forall p :: p in cs ==> |p| == 4 && p[..3] == ["firewall", "ipv4", "name"])
  {
    var config := MappingOf(names);
    DedupeKeepsHead([NameRoot(name)] + Matching(config, name, marker));
    MatchingIff(config, name, marker, n);
  }

  /** Every tear-down path lies under firewall ipv4. */
  lemma TeardownRoots(name: string, marker: string, names: Node)
    ensures forall d :: d in TeardownCommands(name, marker, names) ==> |d| >= 2 && d[1] == "ipv4"
  {
    var found := [NameRoot(name)] + Matching(MappingOf(names), name, marker);
    MatchingRoots(MappingOf(names), name, marker);
    assert forall d :: d in found ==> |d| >= 2 && d[1] == "ipv4";
  }

  lemma {:induction false} MatchingRoots(config: Entries, name: string, marker: string)
    ensures forall d :: d in Matching(config, name, marker) ==> |d| >= 2 && d[1] == "ipv4"
  {
    if config != [] {
      MatchingRoots(config[..|config| - 1], name, marker);
    }
  }

  /**
   * Tearing down after setting up, for the same description and interface,
   * removes everything the set-up put under the firewall's name and keeps the
   * state-policy fixes.
   */
  lemma SetupThenTeardown(description: Option<string>, fallbackIface: Option<string>, stateConfig: Entries,
                          names: Node, store: Store)
    ensures var name := FirewallName(description, fallbackIface);
      var marker := Marker(fallbackIface);
      var after := Run(Run(store, Sets(SetupCommands(name, marker, stateConfig))), Deletes(TeardownCommands(name, marker, names)));
      (forall q :: HasPrefix(q, NameRoot(name)) ==> q !in after) &&
      (forall p :: p in MissingStatePolicy(stateConfig) ==> p in after)
  {
    var name := FirewallName(description, fallbackIface);
    var marker := Marker(fallbackIface);
    var middle := Run(store, Sets(SetupCommands(name, marker, stateConfig)));
    TeardownClearsName(name, marker, names, middle);
    TeardownKeepsFixes(name, marker, stateConfig, names, store);
  }

  /** The tear-down removes everything under the computed name, whatever was stored. */
  lemma TeardownClearsName(name: string, marker: string, names: Node, store: Store)
    ensures forall q :: HasPrefix(q, NameRoot(name)) ==> q !in Run(store, Deletes(TeardownCommands(name, marker, names)))
  {
    var teardown := TeardownCommands(name, marker, names);
    RunDeletes(store, teardown);
    TeardownContents(name, marker, names, name);
  }

  /** The tear-down keeps the state-policy fixes that the set-up stored. */
  lemma TeardownKeepsFixes(name: string, marker: string, stateConfig: Entries, names: Node, store: Store)
    ensures var after := Run(Run(store, Sets(SetupCommands(name, marker, stateConfig))), Deletes(TeardownCommands(name, marker, names)));
      forall p :: p in MissingStatePolicy(stateConfig) ==> p in after
  {
    var fixes := MissingStatePolicy(stateConfig);
    var setup := SetupCommands(name, marker, stateConfig);
    var teardown := TeardownCommands(name, marker, names);
    var middle := Run(store, Sets(setup));
    assert forall p :: p in fixes ==> p in middle by {
      RunSets(store, setup);
      assert forall p :: p in fixes ==> p in setup;
    }
    MissingFromRoots(StatePolicyOf(stateConfig), ExpectedStatePolicy);
    assert forall d :: d in teardown ==> |d| >= 2 && d[1] == "ipv4" by {
      TeardownRoots(name, marker, names);
    }
    DeletesSpareOtherRoots(middle, fixes, teardown);
  }

  /** Deleting paths of one second segment spares stored paths of another. */
  lemma DeletesSpareOtherRoots(store: Store, kept: seq<Path>, ds: seq<Path>)
    requires forall p :: p in kept ==> p in store && |p| >= 2 && p[1] == "global-options"
    requires forall d :: d in ds ==> |d| >= 2 && d[1] == "ipv4"
    ensures forall p :: p in kept ==> p in Run(store, Deletes(ds))
  {
    RunDeletes(store, ds);
    forall p, d | p in kept && d in ds ensures !HasPrefix(p, d) {
      assert d[1] == "ipv4" && p[1] == "global-options";
    }
  }
}
