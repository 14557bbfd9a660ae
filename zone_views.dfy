/**
 * The zone handlers of the firewall section: the zone list and the
 * source-by-destination matrix the dashboard shows, and the command batches
 * that create a zone, delete one and change a zone's membership.
 *
 * Each handler reads the zone configuration, the firewall configuration and
 * the unassigned interfaces from the device; those reads are parameters here,
 * as is the device's answer to the one call a handler makes.
 */
module ZoneViews {
  import opened Wrappers
  import opened Text
  import opened ConfigTree
  import opened Paths
  import opened Sorting
  import opened Device
  import opened Zones
  import opened ZoneFirewall
  import DhcpService

  // ---------------------------------------------------------------------------
  // Messages of the zone handlers

  const ZoneNameRequired := "Zone name is required."
  const SelectInterface := "Select an available interface to assign."
  const CreateBuildFailed := "Unable to build configuration for new zone."
  const CreateFailed := "Failed to create zone."
  const DeleteFailed := "Failed to delete zone."
  const MembershipFieldsRequired := "Zone, interface, and action are required."
  const InterfaceUnavailable := "Interface not available for assignment."
  const MembershipFailed := "Failed to update zone membership."

  function ZoneExists(zone: string): string
  {
    "Zone '" + zone + "' already exists."
  }

  function ZoneMissing(zone: string): string
  {
    "Zone '" + zone + "' not found."
  }

  // ---------------------------------------------------------------------------
  // _sorted_zone_names

  /** The non-empty sanitised names of the zone keys, in key order. */
  function SanitisedNames(config: Entries): seq<string>
  {
    if config == [] then []
    else
      var n := SanitiseZoneName(config[|config| - 1].0);
      SanitisedNames(config[..|config| - 1]) + (if n == "" then [] else [n])
  }

  lemma {:induction false} SanitisedNamesSpec(config: Entries)
    ensures forall x :: x in SanitisedNames(config) <==> x != [] && x in ZoneNameSet(config)
  {
    if config != [] {
      var init := config[..|config| - 1];
      var n := SanitiseZoneName(config[|config| - 1].0);
      SanitisedNamesSpec(init);
      assert SanitisedNames(config) == SanitisedNames(init) + (if n == "" then [] else [n]);
    }
  }

  /** The set of sanitised zone keys the create and delete handlers test against. */
  function ZoneNameSet(config: Entries): set<string>
  {
    if config == [] then {}
    else ZoneNameSet(config[..|config| - 1]) + {SanitiseZoneName(config[|config| - 1].0)}
  }

  /**
   * _sorted_zone_names: the distinct non-empty sanitised zone names, sorted;
   * each is its own sanitised form.
   */
  function SortedZoneNames(config: Entries): (r: seq<string>)
    ensures NoDuplicates(r)
    ensures forall i, j :: 0 <= i < j < |r| ==> StrLe(r[i], r[j]) && r[i] != r[j]
    ensures forall x :: x in r <==> x != [] && x in ZoneNameSet(config)
  {
    SanitisedNamesSpec(config);
    SortedSet(SanitisedNames(config))
  }

  lemma SortedZoneNamesSanitised(config: Entries)
    ensures forall x :: x in SortedZoneNames(config) ==> SanitiseZoneName(x) == x
  {
    ZoneNameSetSanitised(config);
  }

  lemma {:induction false} ZoneNameSetSanitised(config: Entries)
    ensures forall x :: x in ZoneNameSet(config) ==> SanitiseZoneName(x) == x
  {
    if config != [] {
      ZoneNameSetSanitised(config[..|config| - 1]);
      SanitiseZoneNameIdempotent(config[|config| - 1].0);
    }
  }

  /** The sorted zone names other than `zone`, in the same order. */
  function OtherZones(names: seq<string>, zone: string): (r: seq<string>)
    ensures forall x :: x in r <==> x in names && x != zone
    ensures NoDuplicates(names) ==> NoDuplicates(r)
  {
    if names == [] then []
    else
      var init := names[..|names| - 1];
      var last := names[|names| - 1];
      assert forall x :: x in names <==> x in init || x == last;
      var r := OtherZones(init, zone) + (if last == zone then [] else [last]);
      assert NoDuplicates(names) ==> NoDuplicates(init) && last !in init by {
        if NoDuplicates(names) {
          forall i, j | 0 <= i < j < |init| ensures init[i] != init[j] {
            assert init[i] == names[i] && init[j] == names[j];
          }
          forall i | 0 <= i < |init| ensures init[i] != last {
            assert init[i] == names[i];
          }
        }
      }
      r
  }

  // ---------------------------------------------------------------------------
  // _normalize_interface_candidate

  /** {iface.lower(): iface for iface in available}: a later interface overwrites an earlier one. */
  function LowerTable(available: seq<string>): map<string, string>
  {
    if available == [] then map[]
    else
      var last := available[|available| - 1];
      LowerTable(available[..|available| - 1])[Lower(last) := last]
  }

  /** The i-th available interface folds to `key`. */
  predicate MatchAt(available: seq<string>, i: int, key: string)
  {
    0 <= i < |available| && Lower(available[i]) == key
  }

  /** The i-th available interface folds to `key` and no later one does. */
  predicate LastMatchAt(available: seq<string>, i: int, key: string)
  {
    MatchAt(available, i, key) && forall j :: i < j < |available| ==> Lower(available[j]) != key
  }

  lemma {:induction false} LowerTableSpec(available: seq<string>)
    ensures forall k :: k in LowerTable(available) <==> exists i :: MatchAt(available, i, k)
    ensures forall k :: k in LowerTable(available) ==>
      exists i :: LastMatchAt(available, i, k) && available[i] == LowerTable(available)[k]
  {
    if available != [] {
      var init := available[..|available| - 1];
      var last := available[|available| - 1];
      LowerTableSpec(init);
      forall k ensures k in LowerTable(available) <==> exists i :: MatchAt(available, i, k) {
        assert LowerTable(available) == LowerTable(init)[Lower(last) := last];
        if exists i :: MatchAt(available, i, k) {
          var i :| MatchAt(available, i, k);
          if i < |init| {
            assert available[i] == init[i];
            assert MatchAt(init, i, k);
          } else {
            assert k == Lower(last);
          }
        }
        if k in LowerTable(init) {
          var i :| MatchAt(init, i, k);
          assert available[i] == init[i];
          assert MatchAt(available, i, k);
        }
        if k == Lower(last) {
          assert MatchAt(available, |available| - 1, k);
        }
      }
      forall k | k in LowerTable(available)
        ensures exists i :: LastMatchAt(available, i, k) && available[i] == LowerTable(available)[k]
      {
        if k == Lower(last) {
          assert LastMatchAt(available, |available| - 1, k);
        } else {
          var i :| LastMatchAt(init, i, k) && init[i] == LowerTable(init)[k];
          assert available[i] == LowerTable(available)[k];
          forall j | i < j < |available| ensures Lower(available[j]) != k {
            if j < |init| {
              assert available[j] == init[j];
            }
          }
          assert LastMatchAt(available, i, k);
        }
      }
    }
  }

  /**
   * _normalize_interface_candidate: the available interface whose lower-case
   * form matches the candidate's, after the "@" suffix is dropped and case is
   * folded; the last such interface when several match; None for an empty
   * candidate or when nothing matches.
   */
  function NormalizeInterfaceCandidate(candidate: string, available: seq<string>): (r: Option<string>)
    ensures r.None? <==> (candidate == [] || !exists i :: MatchAt(available, i, Lower(IfaceKey(candidate))))
    ensures r.Some? ==> exists i :: LastMatchAt(available, i, Lower(IfaceKey(candidate))) && available[i] == r.value
    ensures r.Some? ==> r.value != []
  {
    LowerTableSpec(available);
    if candidate == "" then Option.None
    else
      var key := Lower(IfaceKey(candidate));
      var table := LowerTable(available);
      if key in table then Some(table[key]) else Option.None
  }

  // ---------------------------------------------------------------------------
  // should_seed_accept

  /**
   * Whether a seeded zone-pair firewall starts with an accepting rule 10: only
   * traffic from the new zone into LOCAL or WAN, and from LOCAL into the new
   * zone. For another zone `z`, the forward firewall accepts iff `z` is LOCAL
   * or WAN, the reverse one iff `z` is LOCAL, and pairs without the new zone
   * never do.
   */
  function ShouldSeedAccept(sanitized: string, source: string, destination: string): (r: bool)
    ensures source == sanitized && destination != sanitized ==> (r <==> destination == "LOCAL" || destination == "WAN")
    ensures destination == sanitized && source != sanitized ==> (r <==> source == "LOCAL")
    ensures source != sanitized && destination != sanitized ==> !r
  {
    if source == sanitized && destination in {"LOCAL", "WAN"} then true
    else if source == "LOCAL" && destination == sanitized then true
    else false
  }

  // ---------------------------------------------------------------------------
  // sorted(members)

  lemma {:induction false} StrLeMinimum(s: set<string>)
    requires s != {}
    ensures exists m :: IsLeast(m, s)
    decreases |s|
  {
    var x :| x in s;
    if s - {x} == {} {
      assert s == {x};
      StrLeTotalAt(x, x);
      assert IsLeast(x, s);
    } else {
      StrLeMinimum(s - {x});
      var m :| IsLeast(m, s - {x});
      StrLeTotalAt(x, m);
      if StrLe(x, m) {
        forall y | y in s ensures StrLe(x, y) {
          if y != x {
            StrLeTransAt(x, m, y);
          } else {
            StrLeTotalAt(x, x);
          }
        }
        assert IsLeast(x, s);
      } else {
        assert StrLe(m, x);
        forall y | y in s ensures StrLe(m, y) {
          if y == x {
            assert StrLe(m, x);
          } else {
            assert y in s - {x};
          }
        }
        assert IsLeast(m, s);
      }
    }
  }

  /** `m` is the least name of `s`. */
  predicate IsLeast(m: string, s: set<string>)
  {
    m in s && forall y :: y in s ==> StrLe(m, y)
  }

  lemma LeastUnique(s: set<string>)
    ensures forall a, b :: IsLeast(a, s) && IsLeast(b, s) ==> a == b
  {
    forall a, b | IsLeast(a, s) && IsLeast(b, s) ensures a == b {
      StrLeAntisymmetric(a, b);
    }
  }

  /** min() of a non-empty set of names. */
  function Least(s: set<string>): (m: string)
    requires s != {}
    ensures IsLeast(m, s)
  {
    StrLeMinimum(s);
    LeastUnique(s);
    var m :| IsLeast(m, s);
    m
  }

  /** sorted() of a set of names: every name once, in ascending order. */
  function SortedMembers(s: set<string>): (r: seq<string>)
    ensures forall x :: x in r <==> x in s
    ensures forall i, j :: 0 <= i < j < |r| ==> StrLe(r[i], r[j]) && r[i] != r[j]
    ensures |r| == |s|
    decreases |s|
  {
    if s == {} then []
    else
      var m := Least(s);
      var rest := SortedMembers(s - {m});
      LeastThenSorted(m, s, rest);
      [m] + rest
  }

  /** The least name followed by the others in ascending order is the set in ascending order. */
  lemma LeastThenSorted(m: string, s: set<string>, rest: seq<string>)
    requires IsLeast(m, s)
    requires forall x :: x in rest <==> x in s - {m}
    requires forall i, j :: 0 <= i < j < |rest| ==> StrLe(rest[i], rest[j]) && rest[i] != rest[j]
    requires |rest| == |s - {m}|
    ensures var r := [m] + rest;
      (forall x :: x in r <==> x in s) &&
      (forall i, j :: 0 <= i < j < |r| ==> StrLe(r[i], r[j]) && r[i] != r[j]) &&
      |r| == |s|
  {
    var r := [m] + rest;
    forall i, j | 0 <= i < j < |r| ensures StrLe(r[i], r[j]) && r[i] != r[j] {
      assert r[j] == rest[j - 1];
      if i == 0 {
        assert rest[j - 1] in s - {m};
      } else {
        assert r[i] == rest[i - 1];
      }
    }
    assert forall x :: x in r <==> x == m || x in rest;
  }

  // ---------------------------------------------------------------------------
  // api_create_zone

  /** {str(key) for key in ensure_mapping(firewall_root.get("name"))}: the firewalls that exist. */
  function FirewallNameSet(firewallRoot: Entries): set<string>
  {
    KeySet(MappingOf(Get(firewallRoot, "name")))
  }

  /** What the create handler has built so far: its command list and the firewall names it knows to exist. */
  datatype Seeding = Seeding(commands: seq<Path>, existing: set<string>)

  /** Seed the named firewall unless it is known to exist, and from then on know it. */
  function SeedIfAbsent(acc: Seeding, name: string, accept: bool): Seeding
  {
    if name in acc.existing then acc
    else Seeding(acc.commands + BuildFirewallSeedCommands(name, accept), acc.existing + {name})
  }

  /** One pass of the loop over the other zones: both pair firewalls seeded if absent, then both bindings. */
  function PairStep(acc: Seeding, zone: string, other: string): Seeding
  {
    var forward := ZonePairFirewallName(zone, other);
    var reverse := ZonePairFirewallName(other, zone);
    var a := SeedIfAbsent(SeedIfAbsent(acc, forward, ShouldSeedAccept(zone, zone, other)),
                          reverse, ShouldSeedAccept(zone, other, zone));
    Seeding(a.commands + BuildZoneBindingCommands(zone, other, forward) + BuildZoneBindingCommands(other, zone, reverse),
            a.existing)
  }

  function PairSteps(acc: Seeding, zone: string, others: seq<string>): Seeding
  {
    if others == [] then acc
    else PairStep(PairSteps(acc, zone, others[..|others| - 1]), zone, others[|others| - 1])
  }

  /** The state before the loop: the zone definition, the self firewall if absent, and the intra-zone commands. */
  function SelfSeeding(zone: string, config: Entries, firewalls: set<string>, intra: (string, string) -> seq<Path>): Seeding
  {
    var selfName := ZonePairFirewallName(zone, zone);
    var a := SeedIfAbsent(Seeding(BuildZoneDefinitionCommands(zone, config), firewalls), selfName, true);
    Seeding(a.commands + intra(zone, selfName), a.existing)
  }

  /** The create handler's command list before de-duplication. */
  function CreateCommands(zone: string, config: Entries, candidate: string, firewalls: set<string>,
                          intra: (string, string) -> seq<Path>): seq<Path>
  {
    PairSteps(SelfSeeding(zone, config, firewalls, intra), zone, OtherZones(SortedZoneNames(config), zone)).commands
      + BuildZoneMembershipCommands(zone, candidate)
  }

  /** payload.get("zoneName") or payload.get("name") or payload.get("zone"), sanitised. */
  function RequestedZone(zoneName: Option<string>, name: Option<string>, zone: Option<string>): string
  {
    SanitiseZoneName(DhcpService.FirstTruthy([zoneName, name, zone]).GetOr(""))
  }

  /** api_create_zone: the refusals in order, then the de-duplicated batch that configure_set applies. */
  function CreateZoneSpec(zoneName: Option<string>, name: Option<string>, zoneField: Option<string>, ifaceField: string,
                          config: Entries, available: seq<string>, firewallRoot: Entries,
                          intra: (string, string) -> seq<Path>, resp: Response): Checked<seq<Path>>
  {
    var sanitized := RequestedZone(zoneName, name, zoneField);
    if sanitized == "" then Refuse(400, ZoneNameRequired)
    else if sanitized in ZoneNameSet(config) then Refuse(400, ZoneExists(sanitized))
    else
      var candidate := NormalizeInterfaceCandidate(ifaceField, available);
      if candidate.None? then Refuse(400, SelectInterface)
      else
        var commands := Dedupe(CreateCommands(sanitized, config, candidate.value, FirewallNameSet(firewallRoot), intra));
        if commands == [] then Refuse(400, CreateBuildFailed)
        else
          var outcome := ConfigureSet(commands, "create firewall zone " + sanitized, resp);
          if !outcome.ok then Refuse(500, outcome.message.GetOr(CreateFailed))
          else Pass(commands)
  }

  /** One pass of the loop over the other zones. */
  method SeedPair(commands0: seq<Path>, existing0: set<string>, zone: string, other: string)
    returns (commands: seq<Path>, existing: set<string>)
    ensures Seeding(commands, existing) == PairStep(Seeding(commands0, existing0), zone, other)
  {
    commands, existing := commands0, existing0;
    var forward := ZonePairFirewallName(zone, other);
    var reverse := ZonePairFirewallName(other, zone);
    if forward !in existing {
      commands := commands + BuildFirewallSeedCommands(forward, ShouldSeedAccept(zone, zone, other));
      existing := existing + {forward};
    }
    if reverse !in existing {
      commands := commands + BuildFirewallSeedCommands(reverse, ShouldSeedAccept(zone, other, zone));
      existing := existing + {reverse};
    }
    commands := commands + BuildZoneBindingCommands(zone, other, forward);
    commands := commands + BuildZoneBindingCommands(other, zone, reverse);
  }

  /** The loop over the other zones, with the set of known firewalls it updates. */
  method SeedPairs(commands0: seq<Path>, existing0: set<string>, zone: string, others: seq<string>)
    returns (commands: seq<Path>, existing: set<string>)
    ensures Seeding(commands, existing) == PairSteps(Seeding(commands0, existing0), zone, others)
  {
    commands, existing := commands0, existing0;
    var i := 0;
    while i < |others|
      invariant 0 <= i <= |others|
      invariant Seeding(commands, existing) == PairSteps(Seeding(commands0, existing0), zone, others[..i])
    {
      assert others[..i + 1][..i] == others[..i];
      commands, existing := SeedPair(commands, existing, zone, others[i]);
      i := i + 1;
    }
    assert others[..|others|] == others;
  }

  /** The definition of the zone, then its own firewall if absent, then the intra-zone commands. */
  method SeedSelf(zone: string, config: Entries, firewalls: set<string>, intra: (string, string) -> seq<Path>)
    returns (commands: seq<Path>, existing: set<string>)
    ensures Seeding(commands, existing) == SelfSeeding(zone, config, firewalls, intra)
  {
    commands := BuildZoneDefinitionCommands(zone, config);
    existing := firewalls;
    var selfName := ZonePairFirewallName(zone, zone);
    if selfName !in existing {
      commands := commands + BuildFirewallSeedCommands(selfName, true);
      existing := existing + {selfName};
    }
    commands := commands + intra(zone, selfName);
  }

  /** The command list the create handler builds before de-duplicating it. */
  method BuildCreateCommands(zone: string, config: Entries, candidate: string, firewalls: set<string>,
                             intra: (string, string) -> seq<Path>) returns (commands: seq<Path>)
    ensures commands == CreateCommands(zone, config, candidate, firewalls, intra)
  {
    var existing;
    commands, existing := SeedSelf(zone, config, firewalls, intra);
    commands, existing := SeedPairs(commands, existing, zone, OtherZones(SortedZoneNames(config), zone));
    commands := commands + BuildZoneMembershipCommands(zone, candidate);
  }

  /** api_create_zone as the handler runs it. */
  method CreateZone(zoneName: Option<string>, name: Option<string>, zoneField: Option<string>, ifaceField: string,
                    config: Entries, available: seq<string>, firewallRoot: Entries,
                    intra: (string, string) -> seq<Path>, resp: Response) returns (r: Checked<seq<Path>>)
    ensures r == CreateZoneSpec(zoneName, name, zoneField, ifaceField, config, available, firewallRoot, intra, resp)
  {
    var sanitized := RequestedZone(zoneName, name, zoneField);
    if sanitized == "" {
      return Refuse(400, ZoneNameRequired);
    }
    if sanitized in ZoneNameSet(config) {
      return Refuse(400, ZoneExists(sanitized));
    }
    var candidate := NormalizeInterfaceCandidate(ifaceField, available);
    if candidate.None? {
      return Refuse(400, SelectInterface);
    }
    var commands := BuildCreateCommands(sanitized, config, candidate.value, FirewallNameSet(firewallRoot), intra);
    var deduped := DedupeCommands(commands);
    if deduped == [] {
      return Refuse(400, CreateBuildFailed);
    }
    var outcome := ConfigureSet(deduped, "create firewall zone " + sanitized, resp);
    if !outcome.ok {
      return Refuse(500, outcome.message.GetOr(CreateFailed));
    }
    return Pass(deduped);
  }

  /** The path lies at or below the root of a firewall named in `names`. */
  predicate UnderFirewall(c: Path, names: set<string>)
  {
    |c| >= 4 && c[0] == "firewall" && c[1] == "ipv4" && c[2] == "name" && c[3] in names
  }

  lemma UnderFirewallIsPrefix(c: Path, names: set<string>)
    ensures UnderFirewall(c, names) <==> exists x :: x in names && HasPrefix(c, FirewallRoot(x))
  {
    if UnderFirewall(c, names) {
      assert c[..4] == FirewallRoot(c[3]);
    }
  }

  /** No command of `cs` lies below the root of a firewall named in `names`. */
  predicate SparesFirewalls(cs: seq<Path>, names: set<string>)
  {
    forall c :: c in cs ==> !UnderFirewall(c, names)
  }

  /**
   * `b` continues `a`: it keeps a's commands as a prefix, knows at least the
   * names a knows, and adds no command under a firewall a knows.
   */
  predicate Extends(b: Seeding, a: Seeding)
  {
    |a.commands| <= |b.commands| && b.commands[..|a.commands|] == a.commands &&
    a.existing <= b.existing && SparesFirewalls(b.commands[|a.commands|..], a.existing)
  }

  lemma ExtendsTrans(a: Seeding, b: Seeding, c: Seeding)
    requires Extends(b, a) && Extends(c, b)
    ensures Extends(c, a)
  {
    var t := b.commands[|a.commands|..];
    var u := c.commands[|b.commands|..];
    assert b.commands == a.commands + t;
    assert c.commands == b.commands + u;
    assert c.commands == a.commands + (t + u);
    assert c.commands[..|a.commands|] == a.commands;
    assert c.commands[|a.commands|..] == t + u;
  }

  lemma AppendExtends(a: Seeding, tail: seq<Path>)
    requires SparesFirewalls(tail, a.existing)
    ensures Extends(Seeding(a.commands + tail, a.existing), a)
  {
    assert (a.commands + tail)[..|a.commands|] == a.commands;
    assert (a.commands + tail)[|a.commands|..] == tail;
  }

  /** The binding path from `source` into `destination`. */
  function BindingPath(source: string, destination: string, firewallName: string): Path
  {
    Under(ZoneRoot(destination), ["from", source, "firewall", "name", firewallName])
  }

  lemma SeedExtends(acc: Seeding, name: string, accept: bool)
    ensures Extends(SeedIfAbsent(acc, name, accept), acc)
    ensures name in SeedIfAbsent(acc, name, accept).existing
    ensures name !in acc.existing ==> FirewallRoot(name) in SeedIfAbsent(acc, name, accept).commands
    ensures SeedIfAbsent(acc, name, accept).existing <= acc.existing + {name}
  {
    if name !in acc.existing {
      var cs := BuildFirewallSeedCommands(name, accept);
      forall c | c in cs ensures !UnderFirewall(c, acc.existing) {
        assert HasPrefix(c, FirewallRoot(name));
        assert c[3] == name;
      }
      AppendExtends(acc, cs);
      assert cs[0] in SeedIfAbsent(acc, name, accept).commands;
    }
  }

  lemma BindingSpares(source: string, destination: string, firewallName: string, names: set<string>)
    ensures SparesFirewalls(BuildZoneBindingCommands(source, destination, firewallName), names)
  {
    var cs := BuildZoneBindingCommands(source, destination, firewallName);
    if cs != [] {
      assert cs == [BindingPath(SanitiseZoneName(source), SanitiseZoneName(destination), firewallName)];
      assert cs[0][1] == "zone";
    }
  }

  /** One pass continues the state, and ends knowing both pair names. */
  lemma PairStepExtends(acc: Seeding, zone: string, other: string)
    ensures Extends(PairStep(acc, zone, other), acc)
    ensures ZonePairFirewallName(zone, other) in PairStep(acc, zone, other).existing
    ensures ZonePairFirewallName(other, zone) in PairStep(acc, zone, other).existing
  {
    var forward := ZonePairFirewallName(zone, other);
    var reverse := ZonePairFirewallName(other, zone);
    var a1 := SeedIfAbsent(acc, forward, ShouldSeedAccept(zone, zone, other));
    var a2 := SeedIfAbsent(a1, reverse, ShouldSeedAccept(zone, other, zone));
    SeedExtends(acc, forward, ShouldSeedAccept(zone, zone, other));
    SeedExtends(a1, reverse, ShouldSeedAccept(zone, other, zone));
    ExtendsTrans(acc, a1, a2);
    var b1 := BuildZoneBindingCommands(zone, other, forward);
    var b2 := BuildZoneBindingCommands(other, zone, reverse);
    BindingSpares(zone, other, forward, a2.existing);
    BindingSpares(other, zone, reverse, a2.existing);
    var a3 := Seeding(a2.commands + b1, a2.existing);
    var a4 := Seeding(a3.commands + b2, a3.existing);
    AppendExtends(a2, b1);
    AppendExtends(a3, b2);
    ExtendsTrans(a2, a3, a4);
    ExtendsTrans(acc, a2, a4);
    assert PairStep(acc, zone, other) == a4;
  }

  /**
   * One pass builds both bindings, and each name it comes to know has its
   * firewall root among the commands.
   */
  lemma PairStepCovers(acc: Seeding, zone: string, other: string)
    ensures var r := PairStep(acc, zone, other);
      (forall c :: c in BuildZoneBindingCommands(zone, other, ZonePairFirewallName(zone, other)) ==> c in r.commands) &&
      (forall c :: c in BuildZoneBindingCommands(other, zone, ZonePairFirewallName(other, zone)) ==> c in r.commands) &&
      forall x :: x in r.existing ==> x in acc.existing || FirewallRoot(x) in r.commands
  {
    var forward := ZonePairFirewallName(zone, other);
    var reverse := ZonePairFirewallName(other, zone);
    var a1 := SeedIfAbsent(acc, forward, ShouldSeedAccept(zone, zone, other));
    var a2 := SeedIfAbsent(a1, reverse, ShouldSeedAccept(zone, other, zone));
    SeedExtends(acc, forward, ShouldSeedAccept(zone, zone, other));
    SeedExtends(a1, reverse, ShouldSeedAccept(zone, other, zone));
    var r := PairStep(acc, zone, other);
    var b1 := BuildZoneBindingCommands(zone, other, forward);
    var b2 := BuildZoneBindingCommands(other, zone, reverse);
    assert r.commands == a2.commands + b1 + b2;
    PrefixElems(a2.commands, a1.commands);
    PrefixElems(a1.commands, acc.commands);
  }

  lemma {:induction false} PairStepsExtends(acc: Seeding, zone: string, others: seq<string>)
    ensures Extends(PairSteps(acc, zone, others), acc)
  {
    if others == [] {
      assert acc.commands[|acc.commands|..] == [];
    } else {
      var p := PairSteps(acc, zone, others[..|others| - 1]);
      PairStepsExtends(acc, zone, others[..|others| - 1]);
      PairStepExtends(p, zone, others[|others| - 1]);
      ExtendsTrans(acc, p, PairSteps(acc, zone, others));
    }
  }

  lemma {:induction false} PairStepsCover(acc: Seeding, zone: string, others: seq<string>)
    ensures var r := PairSteps(acc, zone, others);
      (forall o :: o in others ==> ZonePairFirewallName(zone, o) in r.existing && ZonePairFirewallName(o, zone) in r.existing) &&
      (forall o, c :: o in others && c in BuildZoneBindingCommands(zone, o, ZonePairFirewallName(zone, o)) ==> c in r.commands) &&
      (forall o, c :: o in others && c in BuildZoneBindingCommands(o, zone, ZonePairFirewallName(o, zone)) ==> c in r.commands) &&
      forall x :: x in r.existing ==> x in acc.existing || FirewallRoot(x) in r.commands
  {
    if others != [] {
      var init := others[..|others| - 1];
      var last := others[|others| - 1];
      var p := PairSteps(acc, zone, init);
      var r := PairSteps(acc, zone, others);
      PairStepsCover(acc, zone, init);
      PairStepCovers(p, zone, last);
      PairStepExtends(p, zone, last);
      assert r == PairStep(p, zone, last);
      PrefixElems(r.commands, p.commands);
      forall o | o in others
        ensures ZonePairFirewallName(zone, o) in r.existing && ZonePairFirewallName(o, zone) in r.existing
      {
        if o != last {
          assert o in init;
        }
      }
      forall o, c | o in others && c in BuildZoneBindingCommands(zone, o, ZonePairFirewallName(zone, o))
        ensures c in r.commands
      {
        if o != last {
          assert o in init;
        }
      }
      forall o, c | o in others && c in BuildZoneBindingCommands(o, zone, ZonePairFirewallName(o, zone))
        ensures c in r.commands
      {
        if o != last {
          assert o in init;
        }
      }
    }
  }

  /** A sanitised name absent from the sanitised zone keys is not a zone key itself. */
  lemma NewZoneNotKey(zone: string, config: Entries)
    requires SanitiseZoneName(zone) == zone && zone !in ZoneNameSet(config)
    ensures zone !in Keys(config)
  {
    forall i | 0 <= i < |config| ensures config[i].0 != zone {
      ZoneNameSetHas(config, i);
    }
  }

  /** Every key's sanitised form is in the set. */
  lemma {:induction false} ZoneNameSetHas(config: Entries, i: int)
    requires 0 <= i < |config|
    ensures SanitiseZoneName(config[i].0) in ZoneNameSet(config)
  {
    if i < |config| - 1 {
      var init := config[..|config| - 1];
      assert init[i] == config[i];
      ZoneNameSetHas(init, i);
    }
  }

  /** Before the loop the self firewall is known, and every name known then already existed or was seeded. */
  lemma SelfSeedingKnows(zone: string, config: Entries, firewalls: set<string>, intra: (string, string) -> seq<Path>)
    ensures var s := SelfSeeding(zone, config, firewalls, intra);
      firewalls <= s.existing && ZonePairFirewallName(zone, zone) in s.existing &&
      forall x :: x in s.existing ==> x in firewalls || FirewallRoot(x) in s.commands
  {
    var selfName := ZonePairFirewallName(zone, zone);
    var d := Seeding(BuildZoneDefinitionCommands(zone, config), firewalls);
    var a := SeedIfAbsent(d, selfName, true);
    SeedExtends(d, selfName, true);
    var s := SelfSeeding(zone, config, firewalls, intra);
    assert s.commands == a.commands + intra(zone, selfName);
  }

  /** Before the loop only the intra-zone commands touch a firewall that exists. */
  lemma SelfSeedingSpares(zone: string, config: Entries, firewalls: set<string>, intra: (string, string) -> seq<Path>)
    ensures var s := SelfSeeding(zone, config, firewalls, intra);
      forall c :: c in s.commands && UnderFirewall(c, firewalls) ==> c in intra(zone, ZonePairFirewallName(zone, zone))
  {
    var selfName := ZonePairFirewallName(zone, zone);
    var d := Seeding(BuildZoneDefinitionCommands(zone, config), firewalls);
    var a := SeedIfAbsent(d, selfName, true);
    SeedExtends(d, selfName, true);
    var s := SelfSeeding(zone, config, firewalls, intra);
    assert s.commands == a.commands + intra(zone, selfName);
    assert a.commands == d.commands + a.commands[|d.commands|..];
    ZoneCommandsSpareFirewalls(d.commands, ZoneRoot(SanitiseZoneName(zone)), firewalls);
  }

  /** Commands under a zone root are under no firewall. */
  lemma ZoneCommandsSpareFirewalls(cs: seq<Path>, root: Path, names: set<string>)
    requires AllUnder(cs, root) && |root| >= 2 && root[1] == "zone"
    ensures forall c :: c in cs ==> !UnderFirewall(c, names)
  {
    forall c | c in cs ensures !UnderFirewall(c, names) {
      assert HasPrefix(c, root);
      assert c[1] == c[..|root|][1];
    }
  }

  /** A new zone's definition opens the command list. */
  lemma SelfSeedingDefines(zone: string, config: Entries, firewalls: set<string>, intra: (string, string) -> seq<Path>)
    requires SanitiseZoneName(zone) == zone && zone != [] && zone !in ZoneNameSet(config)
    ensures ZoneRoot(zone) in SelfSeeding(zone, config, firewalls, intra).commands
  {
    var d := BuildZoneDefinitionCommands(zone, config);
    NewZoneNotKey(zone, config);
    var s := SelfSeeding(zone, config, firewalls, intra);
    assert s.commands[..|d|] == d by {
      var a := SeedIfAbsent(Seeding(d, firewalls), ZonePairFirewallName(zone, zone), true);
      SeedExtends(Seeding(d, firewalls), ZonePairFirewallName(zone, zone), true);
      assert s.commands == a.commands + intra(zone, ZonePairFirewallName(zone, zone));
    }
    assert d[0] in s.commands[..|d|];
  }

  /**
   * Apart from the intra-zone commands, the create batch puts nothing under a
   * firewall that already exists: seeds go only to absent names.
   */
  lemma CreateSparesExistingFirewalls(zone: string, config: Entries, candidate: string, firewalls: set<string>,
                                      intra: (string, string) -> seq<Path>)
    ensures forall c :: c in CreateCommands(zone, config, candidate, firewalls, intra) && UnderFirewall(c, firewalls) ==>
      c in intra(zone, ZonePairFirewallName(zone, zone))
  {
    var s := SelfSeeding(zone, config, firewalls, intra);
    var others := OtherZones(SortedZoneNames(config), zone);
    var p := PairSteps(s, zone, others);
    SelfSeedingKnows(zone, config, firewalls, intra);
    SelfSeedingSpares(zone, config, firewalls, intra);
    PairStepsExtends(s, zone, others);
    var t := p.commands[|s.commands|..];
    assert p.commands == s.commands + t;
    SparesFewer(t, s.existing, firewalls);
    var m := BuildZoneMembershipCommands(zone, candidate);
    MembershipSpares(zone, candidate, firewalls);
    CombineSpares(s.commands, t, m, firewalls, intra(zone, ZonePairFirewallName(zone, zone)));
  }

  /** Sparing the firewalls of a set spares those of any subset. */
  lemma SparesFewer(cs: seq<Path>, names: set<string>, fewer: set<string>)
    requires SparesFirewalls(cs, names) && fewer <= names
    ensures SparesFirewalls(cs, fewer)
  {
  }

  /** The membership path lies under a zone, not under a firewall. */
  lemma MembershipSpares(zone: string, candidate: string, names: set<string>)
    ensures SparesFirewalls(BuildZoneMembershipCommands(zone, candidate), names)
  {
    var m := BuildZoneMembershipCommands(zone, candidate);
    if m != [] {
      var p := MembershipPath(zone, candidate);
      assert p[..3] == ZoneRoot(SanitiseZoneName(zone));
      assert p[1] == "zone";
      assert forall c :: c in m ==> c == p;
    }
  }

  /** Appending commands that spare the firewalls keeps every firewall command among the allowed ones. */
  lemma CombineSpares(a: seq<Path>, t: seq<Path>, m: seq<Path>, names: set<string>, allowed: seq<Path>)
    requires forall c :: c in a && UnderFirewall(c, names) ==> c in allowed
    requires SparesFirewalls(t, names) && SparesFirewalls(m, names)
    ensures forall c :: c in a + t + m && UnderFirewall(c, names) ==> c in allowed
  {
  }

  /** Every command built before the membership path reaches the create batch. */
  lemma CreateKeepsLoopCommands(zone: string, config: Entries, candidate: string, firewalls: set<string>,
                                intra: (string, string) -> seq<Path>)
    ensures var s := SelfSeeding(zone, config, firewalls, intra);
      var p := PairSteps(s, zone, OtherZones(SortedZoneNames(config), zone));
      var cs := CreateCommands(zone, config, candidate, firewalls, intra);
      (forall c :: c in s.commands ==> c in cs) && (forall c :: c in p.commands ==> c in cs) &&
      (SanitiseZoneName(zone) != [] && candidate != [] ==> MembershipPath(zone, candidate) in cs)
  {
    var s := SelfSeeding(zone, config, firewalls, intra);
    var p := PairSteps(s, zone, OtherZones(SortedZoneNames(config), zone));
    var cs := CreateCommands(zone, config, candidate, firewalls, intra);
    var m := BuildZoneMembershipCommands(zone, candidate);
    PairStepsExtends(s, zone, OtherZones(SortedZoneNames(config), zone));
    PrefixElems(p.commands, s.commands);
    assert cs == p.commands + m;
    if SanitiseZoneName(zone) != [] && candidate != [] {
      assert MembershipPath(zone, candidate) in m;
    }
  }

  /**
   * The create batch defines the new zone, assigns the interface to it and
   * seeds its self firewall unless that exists.
   */
  lemma CreateDefinesZone(zone: string, config: Entries, candidate: string, firewalls: set<string>,
                          intra: (string, string) -> seq<Path>)
    requires SanitiseZoneName(zone) == zone && zone != [] && zone !in ZoneNameSet(config) && candidate != []
    ensures var cs := CreateCommands(zone, config, candidate, firewalls, intra);
      ZoneRoot(zone) in cs && MembershipPath(zone, candidate) in cs &&
      (ZonePairFirewallName(zone, zone) in firewalls || FirewallRoot(ZonePairFirewallName(zone, zone)) in cs)
  {
    SelfSeedingDefines(zone, config, firewalls, intra);
    SelfSeedingKnows(zone, config, firewalls, intra);
    CreateKeepsLoopCommands(zone, config, candidate, firewalls, intra);
  }

  /** Every pair firewall between the new zone and another zone exists already or is seeded by the batch. */
  lemma CreateSeedsPairs(zone: string, config: Entries, candidate: string, firewalls: set<string>,
                         intra: (string, string) -> seq<Path>)
    ensures var cs := CreateCommands(zone, config, candidate, firewalls, intra);
      forall o :: o in OtherZones(SortedZoneNames(config), zone) ==>
        (ZonePairFirewallName(zone, o) in firewalls || FirewallRoot(ZonePairFirewallName(zone, o)) in cs) &&
        (ZonePairFirewallName(o, zone) in firewalls || FirewallRoot(ZonePairFirewallName(o, zone)) in cs)
  {
    var s := SelfSeeding(zone, config, firewalls, intra);
    SelfSeedingKnows(zone, config, firewalls, intra);
    PairStepsCover(s, zone, OtherZones(SortedZoneNames(config), zone));
    CreateKeepsLoopCommands(zone, config, candidate, firewalls, intra);
  }

  /** The create batch binds the new zone to every other zone in both directions. */
  lemma CreateBindsPairs(zone: string, config: Entries, candidate: string, firewalls: set<string>,
                         intra: (string, string) -> seq<Path>)
    requires SanitiseZoneName(zone) == zone && zone != []
    ensures var cs := CreateCommands(zone, config, candidate, firewalls, intra);
      forall o :: o in OtherZones(SortedZoneNames(config), zone) ==>
        BindingPath(zone, o, ZonePairFirewallName(zone, o)) in cs &&
        BindingPath(o, zone, ZonePairFirewallName(o, zone)) in cs
  {
    var others := OtherZones(SortedZoneNames(config), zone);
    var s := SelfSeeding(zone, config, firewalls, intra);
    var cs := CreateCommands(zone, config, candidate, firewalls, intra);
    PairStepsCover(s, zone, others);
    CreateKeepsLoopCommands(zone, config, candidate, firewalls, intra);
    SortedZoneNamesSanitised(config);
    forall o | o in others
      ensures BindingPath(zone, o, ZonePairFirewallName(zone, o)) in cs
      ensures BindingPath(o, zone, ZonePairFirewallName(o, zone)) in cs
    {
      assert SanitiseZoneName(o) == o && o != [];
      assert BuildZoneBindingCommands(zone, o, ZonePairFirewallName(zone, o))[0] == BindingPath(zone, o, ZonePairFirewallName(zone, o));
      assert BuildZoneBindingCommands(o, zone, ZonePairFirewallName(o, zone))[0] == BindingPath(o, zone, ZonePairFirewallName(o, zone));
    }
  }

  /**
   * The create handler refuses with 400 exactly for an empty name, a zone that
   * exists or an interface that is not available; it succeeds exactly when
   * those pass and the device accepts; the batch it sends has no duplicates
   * and holds every command it built.
   */
  lemma CreateZoneOutcome(zoneName: Option<string>, name: Option<string>, zoneField: Option<string>, ifaceField: string,
                          config: Entries, available: seq<string>, firewallRoot: Entries,
                          intra: (string, string) -> seq<Path>, resp: Response)
    ensures var r := CreateZoneSpec(zoneName, name, zoneField, ifaceField, config, available, firewallRoot, intra, resp);
      var n := RequestedZone(zoneName, name, zoneField);
      var cand := NormalizeInterfaceCandidate(ifaceField, available);
      (r.Refuse? && r.code == 400 <==> n == [] || n in ZoneNameSet(config) || cand.None?) &&
      (r.Pass? <==> n != [] && n !in ZoneNameSet(config) && cand.Some? && resp.error == [] && resp.status == 200) &&
      (r.Pass? ==> (NoDuplicates(r.value) &&
        forall c :: c in r.value <==> c in CreateCommands(n, config, cand.value, FirewallNameSet(firewallRoot), intra)))
  {
    var n := RequestedZone(zoneName, name, zoneField);
    var cand := NormalizeInterfaceCandidate(ifaceField, available);
    SanitiseZoneNameIdempotent(DhcpService.FirstTruthy([zoneName, name, zoneField]).GetOr(""));
    if n != [] && n !in ZoneNameSet(config) && cand.Some? {
      CreateDefinesZone(n, config, cand.value, FirewallNameSet(firewallRoot), intra);
      assert ZoneRoot(n) in Dedupe(CreateCommands(n, config, cand.value, FirewallNameSet(firewallRoot), intra));
    }
  }

  /**
   * After a successful create the device holds everything it held before, the
   * new zone with its interface, both bindings to every other zone, and a
   * firewall under every pair name; only the intra-zone commands reach a
   * firewall that existed before.
   */
  lemma CreateZoneEffect(zoneName: Option<string>, name: Option<string>, zoneField: Option<string>, ifaceField: string,
                         config: Entries, available: seq<string>, firewallRoot: Entries,
                         intra: (string, string) -> seq<Path>, resp: Response, store: Store)
    requires CreateZoneSpec(zoneName, name, zoneField, ifaceField, config, available, firewallRoot, intra, resp).Pass?
    ensures var batch := CreateZoneSpec(zoneName, name, zoneField, ifaceField, config, available, firewallRoot, intra, resp).value;
      var n := RequestedZone(zoneName, name, zoneField);
      var iface := NormalizeInterfaceCandidate(ifaceField, available).value;
      var fws := FirewallNameSet(firewallRoot);
      var after := Run(store, Sets(batch));
      store <= after && ZoneRoot(n) in after && MembershipPath(n, iface) in after &&
      (ZonePairFirewallName(n, n) in fws || FirewallRoot(ZonePairFirewallName(n, n)) in after) &&
      (forall o :: o in OtherZones(SortedZoneNames(config), n) ==>
        BindingPath(n, o, ZonePairFirewallName(n, o)) in after && BindingPath(o, n, ZonePairFirewallName(o, n)) in after &&
        (ZonePairFirewallName(n, o) in fws || FirewallRoot(ZonePairFirewallName(n, o)) in after) &&
        (ZonePairFirewallName(o, n) in fws || FirewallRoot(ZonePairFirewallName(o, n)) in after)) &&
      forall c :: c in batch && UnderFirewall(c, fws) ==> c in intra(n, ZonePairFirewallName(n, n))
  {
    var batch := CreateZoneSpec(zoneName, name, zoneField, ifaceField, config, available, firewallRoot, intra, resp).value;
    var n := RequestedZone(zoneName, name, zoneField);
    var iface := NormalizeInterfaceCandidate(ifaceField, available).value;
    var fws := FirewallNameSet(firewallRoot);
    CreateZoneOutcome(zoneName, name, zoneField, ifaceField, config, available, firewallRoot, intra, resp);
    SanitiseZoneNameIdempotent(DhcpService.FirstTruthy([zoneName, name, zoneField]).GetOr(""));
    CreateDefinesZone(n, config, iface, fws, intra);
    CreateSeedsPairs(n, config, iface, fws, intra);
    CreateBindsPairs(n, config, iface, fws, intra);
    CreateSparesExistingFirewalls(n, config, iface, fws, intra);
    RunSets(store, batch);
  }

  // ---------------------------------------------------------------------------
  // api_delete_zone

  /** membership.get(zone, []): the map is keyed by the configured zone names, not their sanitised forms. */
  function MembersOf(config: Entries, zone: string): set<string>
  {
    var m := MembershipMap(ZoneMembership(config));
    if zone in m then m[zone] else {}
  }

  /** The membership deletes of the listed interfaces, in order. */
  function MemberDeletes(zone: string, members: seq<string>): seq<Path>
  {
    if members == [] then []
    else MemberDeletes(zone, members[..|members| - 1]) + BuildZoneMembershipDelete(zone, members[|members| - 1])
  }

  /** The root of a firewall, listed only when the device already has it. */
  function ExistingRoot(name: string, firewalls: set<string>): seq<Path>
  {
    if name in firewalls then [FirewallRoot(name)] else []
  }

  /** firewall zone <other> from <zone>: the binding another zone holds for traffic from this one. */
  function FromBinding(other: string, zone: string): Path
  {
    ["firewall", "zone", other, "from", zone]
  }

  /** The deletes for one other zone: the pair firewalls that exist, then that zone's binding from this one. */
  function PairDelete(zone: string, other: string, firewalls: set<string>): seq<Path>
  {
    ExistingRoot(ZonePairFirewallName(zone, other), firewalls)
    + ExistingRoot(ZonePairFirewallName(other, zone), firewalls)
    + [FromBinding(other, zone)]
  }

  function PairDeletes(zone: string, others: seq<string>, firewalls: set<string>): seq<Path>
  {
    if others == [] then []
    else PairDeletes(zone, others[..|others| - 1], firewalls) + PairDelete(zone, others[|others| - 1], firewalls)
  }

  /** The delete handler's command list before de-duplication. */
  function DeleteCommands(zone: string, config: Entries, firewalls: set<string>, intra: (string, string) -> seq<Path>): seq<Path>
  {
    var selfName := ZonePairFirewallName(zone, zone);
    MemberDeletes(zone, SortedMembers(MembersOf(config, zone)))
    + ExistingRoot(selfName, firewalls)
    + intra(zone, selfName)
    + PairDeletes(zone, OtherZones(SortedZoneNames(config), zone), firewalls)
    + [ZoneRoot(zone)]
  }

  /** api_delete_zone: the refusals, then the de-duplicated batch that configure_delete removes. */
  function DeleteZoneSpec(zoneField: Option<string>, config: Entries, firewallRoot: Entries,
                          intra: (string, string) -> seq<Path>, resp: Response): Checked<seq<Path>>
  {
    var sanitized := SanitiseZoneName(zoneField.GetOr(""));
    if sanitized == "" then Refuse(400, ZoneNameRequired)
    else if sanitized !in ZoneNameSet(config) then Refuse(404, ZoneMissing(sanitized))
    else
      var commands := Dedupe(DeleteCommands(sanitized, config, FirewallNameSet(firewallRoot), intra));
      if commands == [] then Pass(commands)
      else
        var outcome := ConfigureDelete(commands, "delete firewall zone " + sanitized, resp);
        if !outcome.ok then Refuse(500, outcome.message.GetOr(DeleteFailed)) else Pass(commands)
  }

  /** The loop over the zone's members. */
  method AppendMemberDeletes(commands0: seq<Path>, zone: string, members: seq<string>) returns (commands: seq<Path>)
    ensures commands == commands0 + MemberDeletes(zone, members)
  {
    commands := commands0;
    var i := 0;
    while i < |members|
      invariant 0 <= i <= |members|
      invariant commands == commands0 + MemberDeletes(zone, members[..i])
    {
      MemberDeletesStep(zone, members, i);
      ghost var done := MemberDeletes(zone, members[..i]);
      var step := BuildZoneMembershipDelete(zone, members[i]);
      AppendAssoc(commands0, done, step);
      commands := commands + step;
      i := i + 1;
    }
    assert members[..|members|] == members;
  }

  lemma MemberDeletesStep(zone: string, members: seq<string>, i: int)
    requires 0 <= i < |members|
    ensures MemberDeletes(zone, members[..i + 1]) == MemberDeletes(zone, members[..i]) + BuildZoneMembershipDelete(zone, members[i])
  {
    assert members[..i + 1][..i] == members[..i];
  }

  lemma PairDeletesStep(zone: string, others: seq<string>, i: int, firewalls: set<string>)
    requires 0 <= i < |others|
    ensures PairDeletes(zone, others[..i + 1], firewalls) == PairDeletes(zone, others[..i], firewalls) + PairDelete(zone, others[i], firewalls)
  {
    assert others[..i + 1][..i] == others[..i];
  }

  /** The loop over the other zones. */
  method AppendPairDeletes(commands0: seq<Path>, zone: string, others: seq<string>, firewalls: set<string>)
    returns (commands: seq<Path>)
    ensures commands == commands0 + PairDeletes(zone, others, firewalls)
  {
    commands := commands0;
    var i := 0;
    while i < |others|
      invariant 0 <= i <= |others|
      invariant commands == commands0 + PairDeletes(zone, others[..i], firewalls)
    {
      PairDeletesStep(zone, others, i, firewalls);
      ghost var done := PairDeletes(zone, others[..i], firewalls);
      ghost var step := PairDelete(zone, others[i], firewalls);
      var forward := ZonePairFirewallName(zone, others[i]);
      var reverse := ZonePairFirewallName(others[i], zone);
      var block := ExistingRoot(forward, firewalls) + ExistingRoot(reverse, firewalls) + [FromBinding(others[i], zone)];
      assert block == step;
      commands := commands + block;
      AppendAssoc(commands0, done, step);
      i := i + 1;
    }
    assert others[..|others|] == others;
  }

  /** api_delete_zone as the handler runs it. */
  method DeleteZone(zoneField: Option<string>, config: Entries, firewallRoot: Entries,
                    intra: (string, string) -> seq<Path>, resp: Response) returns (r: Checked<seq<Path>>)
    ensures r == DeleteZoneSpec(zoneField, config, firewallRoot, intra, resp)
  {
    var sanitized := SanitiseZoneName(zoneField.GetOr(""));
    if sanitized == "" {
      return Refuse(400, ZoneNameRequired);
    }
    if sanitized !in ZoneNameSet(config) {
      return Refuse(404, ZoneMissing(sanitized));
    }
    var members := SortedMembers(MembersOf(config, sanitized));
    var others := OtherZones(SortedZoneNames(config), sanitized);
    var commands := AppendMemberDeletes([], sanitized, members);
    assert commands == MemberDeletes(sanitized, members);
    var existing := FirewallNameSet(firewallRoot);
    var selfName := ZonePairFirewallName(sanitized, sanitized);
    commands := commands + ExistingRoot(selfName, existing) + intra(sanitized, selfName);
    commands := AppendPairDeletes(commands, sanitized, others, existing);
    commands := commands + [ZoneRoot(sanitized)];
    assert commands == DeleteCommands(sanitized, config, existing, intra);
    var deduped := DedupeCommands(commands);
    if deduped != [] {
      var outcome := ConfigureDelete(deduped, "delete firewall zone " + sanitized, resp);
      if !outcome.ok {
        return Refuse(500, outcome.message.GetOr(DeleteFailed));
      }
    }
    return Pass(deduped);
  }

  /** Every membership delete lies under the zone's root. */
  lemma {:induction false} MemberDeletesUnderZone(zone: string, members: seq<string>)
    requires SanitiseZoneName(zone) == zone
    ensures forall c :: c in MemberDeletes(zone, members) ==> HasPrefix(c, ZoneRoot(zone))
    decreases |members|
  {
    if members != [] {
      MemberDeletesUnderZone(zone, members[..|members| - 1]);
    }
  }

  /** The deletes one other zone may contribute: its binding from this zone and the two pair firewalls. */
  predicate PairTarget(c: Path, zone: string, other: string)
  {
    c == FromBinding(other, zone) ||
    c == FirewallRoot(ZonePairFirewallName(zone, other)) ||
    c == FirewallRoot(ZonePairFirewallName(other, zone))
  }

  /** What one other zone contributes: its binding, and each pair firewall exactly when the device has it. */
  lemma PairDeleteContents(zone: string, other: string, firewalls: set<string>)
    ensures forall c :: c in PairDelete(zone, other, firewalls) ==> PairTarget(c, zone, other)
    ensures FromBinding(other, zone) in PairDelete(zone, other, firewalls)
    ensures ZonePairFirewallName(zone, other) in firewalls ==>
      FirewallRoot(ZonePairFirewallName(zone, other)) in PairDelete(zone, other, firewalls)
    ensures ZonePairFirewallName(other, zone) in firewalls ==>
      FirewallRoot(ZonePairFirewallName(other, zone)) in PairDelete(zone, other, firewalls)
  {
  }

  /** The binding from `other` into `zone` is in `cs`, and so is each pair firewall the device has. */
  predicate PairCovered(zone: string, other: string, firewalls: set<string>, cs: seq<Path>)
  {
    FromBinding(other, zone) in cs &&
    (ZonePairFirewallName(zone, other) in firewalls ==> FirewallRoot(ZonePairFirewallName(zone, other)) in cs) &&
    (ZonePairFirewallName(other, zone) in firewalls ==> FirewallRoot(ZonePairFirewallName(other, zone)) in cs)
  }

  lemma PairCoveredAppend(zone: string, other: string, firewalls: set<string>, cs: seq<Path>, extra: seq<Path>)
    requires PairCovered(zone, other, firewalls, cs)
    ensures PairCovered(zone, other, firewalls, cs + extra)
  {
  }

  /** Each other zone contributes its binding from this zone and the pair firewalls the device has. */
  lemma {:induction false} PairDeletesCover(zone: string, others: seq<string>, firewalls: set<string>)
    ensures forall o :: o in others ==> PairCovered(zone, o, firewalls, PairDeletes(zone, others, firewalls))
    decreases |others|
  {
    if others != [] {
      var init := others[..|others| - 1];
      var last := others[|others| - 1];
      var front := PairDeletes(zone, init, firewalls);
      var piece := PairDelete(zone, last, firewalls);
      assert PairDeletes(zone, others, firewalls) == front + piece;
      PairDeletesCover(zone, init, firewalls);
      PairDeleteContents(zone, last, firewalls);
      forall o | o in others ensures PairCovered(zone, o, firewalls, front + piece) {
        if o in init {
          PairCoveredAppend(zone, o, firewalls, front, piece);
        } else {
          assert o == last;
        }
      }
    }
  }

  /** The path is one that some other zone contributes. */
  predicate OfOtherZone(c: Path, zone: string, others: seq<string>)
  {
    exists o :: o in others && PairTarget(c, zone, o)
  }

  /** Nothing else: each pair delete belongs to one of the other zones. */
  lemma {:induction false} PairDeletesWithin(zone: string, others: seq<string>, firewalls: set<string>)
    ensures forall c :: c in PairDeletes(zone, others, firewalls) ==> OfOtherZone(c, zone, others)
    decreases |others|
  {
    if others != [] {
      var init := others[..|others| - 1];
      var last := others[|others| - 1];
      PairDeletesWithin(zone, init, firewalls);
      PairDeleteContents(zone, last, firewalls);
      forall c | c in PairDeletes(zone, others, firewalls)
        ensures OfOtherZone(c, zone, others)
      {
        if c in PairDeletes(zone, init, firewalls) {
          var p :| p in init && PairTarget(c, zone, p);
          assert p in others;
        } else {
          assert PairTarget(c, zone, last);
        }
      }
    }
  }

  /** What a delete batch may touch: the zone's subtree, its firewalls, the intra-zone commands and the other zones' bindings from it. */
  predicate DeleteTarget(c: Path, zone: string, others: seq<string>, extra: seq<Path>)
  {
    HasPrefix(c, ZoneRoot(zone)) || c in extra || c == FirewallRoot(ZonePairFirewallName(zone, zone)) ||
    OfOtherZone(c, zone, others)
  }

  /** Membership in the delete handler's list, part by part. */
  lemma DeleteCommandsParts(zone: string, config: Entries, firewalls: set<string>, intra: (string, string) -> seq<Path>, c: Path)
    requires c in DeleteCommands(zone, config, firewalls, intra)
    ensures c in MemberDeletes(zone, SortedMembers(MembersOf(config, zone))) ||
            c in ExistingRoot(ZonePairFirewallName(zone, zone), firewalls) ||
            c in intra(zone, ZonePairFirewallName(zone, zone)) ||
            c in PairDeletes(zone, OtherZones(SortedZoneNames(config), zone), firewalls) ||
            c == ZoneRoot(zone)
  {
  }

  /** One command of the delete handler's list is one of its targets. */
  lemma DeleteCommandTarget(zone: string, config: Entries, firewalls: set<string>, intra: (string, string) -> seq<Path>, c: Path)
    requires SanitiseZoneName(zone) == zone
    requires c in DeleteCommands(zone, config, firewalls, intra)
    ensures DeleteTarget(c, zone, OtherZones(SortedZoneNames(config), zone), intra(zone, ZonePairFirewallName(zone, zone)))
  {
    var others := OtherZones(SortedZoneNames(config), zone);
    DeleteCommandsParts(zone, config, firewalls, intra, c);
    if c in MemberDeletes(zone, SortedMembers(MembersOf(config, zone))) {
      MemberDeletesUnderZone(zone, SortedMembers(MembersOf(config, zone)));
    } else if c in PairDeletes(zone, others, firewalls) {
      PairDeletesWithin(zone, others, firewalls);
    } else if c == ZoneRoot(zone) {
      assert HasPrefix(c, ZoneRoot(zone));
    }
  }

  /** The delete handler builds commands for nothing but the zone, its firewalls and the bindings that name it. */
  lemma DeleteCommandsWithin(zone: string, config: Entries, firewalls: set<string>, intra: (string, string) -> seq<Path>)
    requires SanitiseZoneName(zone) == zone
    ensures forall c :: c in DeleteCommands(zone, config, firewalls, intra) ==>
      DeleteTarget(c, zone, OtherZones(SortedZoneNames(config), zone), intra(zone, ZonePairFirewallName(zone, zone)))
  {
    forall c | c in DeleteCommands(zone, config, firewalls, intra)
      ensures DeleteTarget(c, zone, OtherZones(SortedZoneNames(config), zone), intra(zone, ZonePairFirewallName(zone, zone)))
    {
      DeleteCommandTarget(zone, config, firewalls, intra, c);
    }
  }

  /** The delete handler's commands always end with the zone's root. */
  lemma DeleteCommandsHaveRoot(zone: string, config: Entries, firewalls: set<string>, intra: (string, string) -> seq<Path>)
    ensures ZoneRoot(zone) in DeleteCommands(zone, config, firewalls, intra)
  {
  }

  /** The delete handler's commands include every binding from the zone and every pair firewall the device has. */
  lemma DeleteCommandsCover(zone: string, config: Entries, firewalls: set<string>, intra: (string, string) -> seq<Path>)
    ensures var cs := DeleteCommands(zone, config, firewalls, intra);
      var others := OtherZones(SortedZoneNames(config), zone);
      (ZonePairFirewallName(zone, zone) in firewalls ==> FirewallRoot(ZonePairFirewallName(zone, zone)) in cs) &&
      forall o :: o in others ==>
        FromBinding(o, zone) in cs &&
        (ZonePairFirewallName(zone, o) in firewalls ==> FirewallRoot(ZonePairFirewallName(zone, o)) in cs) &&
        (ZonePairFirewallName(o, zone) in firewalls ==> FirewallRoot(ZonePairFirewallName(o, zone)) in cs)
  {
    PairDeletesCover(zone, OtherZones(SortedZoneNames(config), zone), firewalls);
  }

  /**
   * The delete handler refuses with 400 exactly for an empty name and with 404
   * exactly for a zone that is not configured; it succeeds exactly when the
   * zone exists and the device accepts; the batch has no duplicates and holds
   * every command it built.
   */
  lemma DeleteZoneOutcome(zoneField: Option<string>, config: Entries, firewallRoot: Entries,
                          intra: (string, string) -> seq<Path>, resp: Response)
    ensures var r := DeleteZoneSpec(zoneField, config, firewallRoot, intra, resp);
      var n := SanitiseZoneName(zoneField.GetOr(""));
      (r.Refuse? && r.code == 400 <==> n == []) &&
      (r.Refuse? && r.code == 404 <==> n != [] && n !in ZoneNameSet(config)) &&
      (r.Pass? <==> n != [] && n in ZoneNameSet(config) && resp.error == [] && resp.status == 200) &&
      (r.Pass? ==> (NoDuplicates(r.value) &&
        forall c :: c in r.value <==> c in DeleteCommands(n, config, FirewallNameSet(firewallRoot), intra)))
  {
    var n := SanitiseZoneName(zoneField.GetOr(""));
    if n != [] && n in ZoneNameSet(config) {
      var cs := DeleteCommands(n, config, FirewallNameSet(firewallRoot), intra);
      DeleteCommandsHaveRoot(n, config, FirewallNameSet(firewallRoot), intra);
      var batch := Dedupe(cs);
      assert ZoneRoot(n) in batch;
      var outcome := ConfigureDelete(batch, "delete firewall zone " + n, resp);
      assert outcome.ok <==> resp.error == [] && resp.status == 200;
      if outcome.ok {
        assert DeleteZoneSpec(zoneField, config, firewallRoot, intra, resp) == Pass(batch);
      } else {
        assert DeleteZoneSpec(zoneField, config, firewallRoot, intra, resp).code == 500;
      }
    }
  }

  /**
   * After a successful delete the device holds a subset of what it held: nothing
   * under the zone, under another zone's binding from it or under a pair
   * firewall it had; and every path outside what the handler targets survives.
   */
  lemma DeleteZoneEffect(zoneField: Option<string>, config: Entries, firewallRoot: Entries,
                         intra: (string, string) -> seq<Path>, resp: Response, store: Store)
    requires DeleteZoneSpec(zoneField, config, firewallRoot, intra, resp).Pass?
    ensures var batch := DeleteZoneSpec(zoneField, config, firewallRoot, intra, resp).value;
      var n := SanitiseZoneName(zoneField.GetOr(""));
      var fws := FirewallNameSet(firewallRoot);
      var others := OtherZones(SortedZoneNames(config), n);
      var after := Run(store, Deletes(batch));
      after <= store &&
      (forall q :: q in after ==> !HasPrefix(q, ZoneRoot(n))) &&
      (ZonePairFirewallName(n, n) in fws ==> forall q :: q in after ==> !HasPrefix(q, FirewallRoot(ZonePairFirewallName(n, n)))) &&
      (forall o, q :: o in others && q in after ==> !HasPrefix(q, FromBinding(o, n))) &&
      (forall o, q :: o in others && ZonePairFirewallName(n, o) in fws && q in after ==>
        !HasPrefix(q, FirewallRoot(ZonePairFirewallName(n, o)))) &&
      (forall o, q :: o in others && ZonePairFirewallName(o, n) in fws && q in after ==>
        !HasPrefix(q, FirewallRoot(ZonePairFirewallName(o, n)))) &&
      forall q :: q in store && (forall c :: DeleteTarget(c, n, others, intra(n, ZonePairFirewallName(n, n))) ==> !HasPrefix(q, c)) ==>
        q in after
  {
    var batch := DeleteZoneSpec(zoneField, config, firewallRoot, intra, resp).value;
    var n := SanitiseZoneName(zoneField.GetOr(""));
    var fws := FirewallNameSet(firewallRoot);
    DeleteZoneOutcome(zoneField, config, firewallRoot, intra, resp);
    SanitiseZoneNameIdempotent(zoneField.GetOr(""));
    DeleteCommandsHaveRoot(n, config, fws, intra);
    DeleteCommandsCover(n, config, fws, intra);
    DeleteCommandsWithin(n, config, fws, intra);
    RunDeletes(store, batch);
  }

  // ---------------------------------------------------------------------------
  // api_update_membership

  /** The request's action, lower-cased: Some(true) for "add", Some(false) for "remove", None for anything else. */
  function MembershipAction(actionField: Option<string>): Option<bool>
  {
    var action := Lower(actionField.GetOr(""));
    if action == "add" then Some(true) else if action == "remove" then Some(false) else Option.None
  }

  /** The handler's checks of the request's fields, before anything else. */
  predicate MembershipRequestComplete(zoneField: Option<string>, ifaceField: Option<string>, actionField: Option<string>)
  {
    SanitiseZoneName(zoneField.GetOr("")) != [] && ifaceField.Some? && ifaceField.value != [] &&
    MembershipAction(actionField).Some?
  }

  /**
   * api_update_membership: the refusals, then the operations the call sends —
   * one set for "add" (of the available interface the request names), one
   * delete for "remove".
   */
  function UpdateMembershipSpec(zoneField: Option<string>, ifaceField: Option<string>, actionField: Option<string>,
                                available: seq<string>, resp: Response): Checked<seq<Op>>
  {
    var zone := SanitiseZoneName(zoneField.GetOr(""));
    if !MembershipRequestComplete(zoneField, ifaceField, actionField) then
      Refuse(400, MembershipFieldsRequired)
    else if MembershipAction(actionField).value then
      var candidate := NormalizeInterfaceCandidate(ifaceField.value, available);
      if candidate.None? then Refuse(400, InterfaceUnavailable)
      else
        var commands := BuildZoneMembershipCommands(zone, candidate.value);
        var outcome := ConfigureSet(commands, "update zone " + zone + " membership", resp);
        if !outcome.ok then Refuse(500, outcome.message.GetOr(MembershipFailed))
        else Pass(Sets(commands))
    else
      var commands := BuildZoneMembershipDelete(zone, ifaceField.value);
      var outcome := ConfigureDelete(commands, "update zone " + zone + " membership", resp);
      if !outcome.ok then Refuse(500, outcome.message.GetOr(MembershipFailed))
      else Pass(Deletes(commands))
  }

  /**
   * The membership handler refuses with 400 exactly for a missing field, an
   * unknown action or an interface that is not available to add, and
   * succeeds exactly when those pass and the device accepts.
   */
  lemma UpdateMembershipOutcome(zoneField: Option<string>, ifaceField: Option<string>, actionField: Option<string>,
                                available: seq<string>, resp: Response)
    ensures var r := UpdateMembershipSpec(zoneField, ifaceField, actionField, available, resp);
      var complete := MembershipRequestComplete(zoneField, ifaceField, actionField);
      var unavailable := complete && MembershipAction(actionField).value &&
        NormalizeInterfaceCandidate(ifaceField.value, available).None?;
      (r.Refuse? && r.code == 400 <==> (!complete || unavailable)) &&
      (r.Pass? <==> (complete && !unavailable && resp.error == [] && resp.status == 200))
  {
    var zone := SanitiseZoneName(zoneField.GetOr(""));
    SanitiseZoneNameIdempotent(zoneField.GetOr(""));
    if MembershipRequestComplete(zoneField, ifaceField, actionField) {
      var candidate := NormalizeInterfaceCandidate(ifaceField.value, available);
      if MembershipAction(actionField).value {
        if candidate.Some? {
          assert BuildZoneMembershipCommands(zone, candidate.value) != [];
        }
      } else {
        assert BuildZoneMembershipDelete(zone, ifaceField.value) != [];
      }
    }
  }

  /** An accepted "add" sends one set, of the membership path of the available interface the request names. */
  lemma UpdateMembershipAdds(zoneField: Option<string>, ifaceField: Option<string>, actionField: Option<string>,
                             available: seq<string>, resp: Response)
    requires UpdateMembershipSpec(zoneField, ifaceField, actionField, available, resp).Pass?
    requires MembershipAction(actionField) == Some(true)
    ensures ifaceField.Some? && NormalizeInterfaceCandidate(ifaceField.value, available).Some?
    ensures UpdateMembershipSpec(zoneField, ifaceField, actionField, available, resp).value ==
      [Set(MembershipPath(SanitiseZoneName(zoneField.GetOr("")), NormalizeInterfaceCandidate(ifaceField.value, available).value))]
  {
    var zone := SanitiseZoneName(zoneField.GetOr(""));
    SanitiseZoneNameIdempotent(zoneField.GetOr(""));
    var candidate := NormalizeInterfaceCandidate(ifaceField.value, available);
    MembershipSetBatch(zone, candidate.value);
  }

  /** The add batch of a zone that sanitises to a name and a named interface: one set of the membership path. */
  lemma MembershipSetBatch(zone: string, iface: string)
    requires SanitiseZoneName(zone) != [] && iface != []
    ensures Sets(BuildZoneMembershipCommands(zone, iface)) == [Set(MembershipPath(zone, iface))]
  {
    assert BuildZoneMembershipCommands(zone, iface) == [MembershipPath(zone, iface)];
  }

  /** An accepted "remove" sends one delete, of the membership path of the interface as the request names it. */
  lemma UpdateMembershipRemoves(zoneField: Option<string>, ifaceField: Option<string>, actionField: Option<string>,
                                available: seq<string>, resp: Response)
    requires UpdateMembershipSpec(zoneField, ifaceField, actionField, available, resp).Pass?
    requires MembershipAction(actionField) == Some(false)
    ensures ifaceField.Some?
    ensures UpdateMembershipSpec(zoneField, ifaceField, actionField, available, resp).value ==
      [Delete(MembershipPath(SanitiseZoneName(zoneField.GetOr("")), ifaceField.value))]
  {
    var zone := SanitiseZoneName(zoneField.GetOr(""));
    SanitiseZoneNameIdempotent(zoneField.GetOr(""));
    var commands := BuildZoneMembershipDelete(zone, ifaceField.value);
    assert commands == [MembershipPath(zone, ifaceField.value)];
    var outcome := ConfigureDelete(commands, "update zone " + zone + " membership", resp);
    assert outcome.ok;
    assert UpdateMembershipSpec(zoneField, ifaceField, actionField, available, resp) == Pass(Deletes(commands));
    assert Deletes(commands) == [Delete(MembershipPath(zone, ifaceField.value))];
  }

  /** The two actions the handler knows, as a request spells them. */
  lemma MembershipActionWords()
    ensures MembershipAction(Some("add")) == Some(true)
    ensures MembershipAction(Some("remove")) == Some(false)
  {
    assert Lower("add") == "add";
    assert Lower("remove") == "remove";
  }

  /**
   * Removing an interface that was just added, by the name it was added
   * under, gives back the store as it was before the add, when the store
   * held nothing under that membership.
   */
  lemma MembershipRemoveUndoesAdd(zoneField: Option<string>, iface: string, available: seq<string>,
                                  respAdd: Response, respRemove: Response, store: Store)
    requires UpdateMembershipSpec(zoneField, Some(iface), Some("add"), available, respAdd).Pass?
    requires var added := NormalizeInterfaceCandidate(iface, available);
      added.Some? && UpdateMembershipSpec(zoneField, Some(added.value), Some("remove"), available, respRemove).Pass?
    requires var added := NormalizeInterfaceCandidate(iface, available);
      added.Some? && forall q :: q in store ==> !HasPrefix(q, MembershipPath(SanitiseZoneName(zoneField.GetOr("")), added.value))
    ensures var added := NormalizeInterfaceCandidate(iface, available).value;
      Run(Run(store, UpdateMembershipSpec(zoneField, Some(iface), Some("add"), available, respAdd).value),
          UpdateMembershipSpec(zoneField, Some(added), Some("remove"), available, respRemove).value) == store
  {
    var zone := SanitiseZoneName(zoneField.GetOr(""));
    var added := NormalizeInterfaceCandidate(iface, available).value;
    MembershipActionWords();
    UpdateMembershipAdds(zoneField, Some(iface), Some("add"), available, respAdd);
    UpdateMembershipRemoves(zoneField, Some(added), Some("remove"), available, respRemove);
    DeleteUndoesSet(store, MembershipPath(zone, added));
  }
}
