/**
 * The zone-firewall helpers: the map from firewall name to the zone pair it
 * guards, the interfaces no zone has claimed, and the paths that seed a new
 * zone-pair firewall.
 *
 * The zone, interface and firewall configurations read from the device are
 * parameters.
 */
module ZoneFirewall {
  import opened Wrappers
  import opened Text
  import opened ConfigTree
  import opened Paths
  import opened Sorting
  import opened IfaceUtils
  import opened Zones

  // ---------------------------------------------------------------------------
  // Sorted sets of names

  function StrKey(s: string): string { s }

  /** sorted(set(xs)): the distinct names of `xs` in Python's string order. */
  function SortedSet(xs: seq<string>): (r: seq<string>)
    ensures NoDuplicates(r)
    ensures forall x :: x in r <==> x in xs
    ensures forall i, j :: 0 <= i < j < |r| ==> StrLe(r[i], r[j]) && r[i] != r[j]
  {
    StrLeTotal();
    var d := Dedupe(xs);
    var r := SortBy(d, StrKey, StrLe);
    assert forall x :: x in r <==> x in d by {
      forall x ensures x in r <==> x in d {
        assert x in r <==> x in multiset(r);
        assert x in d <==> x in multiset(d);
      }
    }
    assert Elems(r) == Elems(d);
    SameElemsPermutation(r, d);
    r
  }

  // ---------------------------------------------------------------------------
  // build_zone_map

  /** What the zone map records about one firewall. */
  datatype ZoneInfo = ZoneInfo(source: string, destination: string, zoneLabel: string)

  /** The record of a firewall guarding traffic from zone `s` into zone `d`: labelled "s -> d". */
  function Info(s: string, d: string): ZoneInfo
  {
    ZoneInfo(s, d, s + " -> " + d)
  }

  /** The names one entry of a name list contributes: a dict's keys, or a truthy scalar as text. */
  function ListEntryNames(entry: Node): seq<string>
  {
    if entry.Map? then Keys(entry.entries) else if Truthy(entry) then [Str(entry)] else []
  }

  function ListNames(xs: seq<Node>): seq<string>
  {
    if xs == [] then [] else ListNames(xs[..|xs| - 1]) + ListEntryNames(xs[|xs| - 1])
  }

  /** _extract_names: a dict's keys, the names of a list's entries, or a single string. */
  function ExtractNames(raw: Node): seq<string>
  {
    match raw
    case Map(m) => Keys(m)
    case List(xs) => ListNames(xs)
    case Leaf(s) => [s]
    case None => []
  }

  /** _record_firewall: one (stripped name, info) record per name that is not blank. */
  function NameRecords(names: seq<string>, s: string, d: string): seq<(string, ZoneInfo)>
  {
    if names == [] then []
    else
      var n := names[|names| - 1];
      NameRecords(names[..|names| - 1], s, d) + (if Strip(n) != "" then [(Strip(n), Info(s, d))] else [])
  }

  /** Each record carries the info of the pair and a non-blank name; every non-blank name gets one. */
  lemma {:induction false} NameRecordsSpec(names: seq<string>, s: string, d: string)
    ensures forall x :: x in NameRecords(names, s, d) ==> x.1 == Info(s, d) && x.0 != []
    ensures forall n :: n in names && Strip(n) != [] ==> (Strip(n), Info(s, d)) in NameRecords(names, s, d)
  {
    if names != [] {
      NameRecordsSpec(names[..|names| - 1], s, d);
      assert forall m :: m in names ==> m in names[..|names| - 1] || m == names[|names| - 1];
    }
  }

  lemma NameRecordsStep(names: seq<string>, i: int, s: string, d: string)
    requires 0 <= i < |names|
    ensures NameRecords(names[..i + 1], s, d) ==
      NameRecords(names[..i], s, d) + (if Strip(names[i]) != "" then [(Strip(names[i]), Info(s, d))] else [])
  {
    assert names[..i + 1][..i] == names[..i];
  }

  /** The firewall names configured under a node's "firewall" "name". */
  function FirewallNames(cfg: Entries): Node
  {
    Get(MappingOf(Get(cfg, "firewall")), "name")
  }

  /**
   * The records of one "from" entry of destination zone `dst`: none when the
   * source sanitises to "", an AttributeError (None) when its configuration is
   * not a dict, otherwise one per firewall name.
   */
  function SourceRecords(dst: string, entry: (string, Node)): Option<seq<(string, ZoneInfo)>>
  {
    var src := SanitiseZoneName(entry.0);
    if src == "" then Some([])
    else if !entry.1.Map? then Option.None
    else Some(NameRecords(ExtractNames(FirewallNames(entry.1.entries)), src, dst))
  }

  /** The records of the "from" entries, in order; None once one raises. */
  function FromRecords(dst: string, from: Entries): Option<seq<(string, ZoneInfo)>>
  {
    if from == [] then Some([])
    else
      var init := FromRecords(dst, from[..|from| - 1]);
      var last := SourceRecords(dst, from[|from| - 1]);
      if init.Some? && last.Some? then Some(init.value + last.value) else Option.None
  }

  /** The records of the zone's intra-zone-filtering firewall, with the zone as both ends. */
  function IntraRecords(dst: string, cfg: Entries): seq<(string, ZoneInfo)>
  {
    var names := FirewallNames(MappingOf(Get(cfg, "intra-zone-filtering")));
    if Truthy(names) then NameRecords(ExtractNames(names), dst, dst) else []
  }

  /**
   * The records of one destination zone: none when its name sanitises to "",
   * an AttributeError when its configuration is not a dict, otherwise those of
   * its "from" entries followed by those of its intra-zone firewall.
   */
  function DestinationRecords(entry: (string, Node)): Option<seq<(string, ZoneInfo)>>
  {
    var dst := SanitiseZoneName(entry.0);
    if dst == "" then Some([])
    else if !entry.1.Map? then Option.None
    else
      var from := FromRecords(dst, MappingOf(Get(entry.1.entries, "from")));
      if from.Some? then Some(from.value + IntraRecords(dst, entry.1.entries)) else Option.None
  }

  /** Every record build_zone_map writes, in the order it writes them; None when it raises. */
  function AllRecords(zones: Entries): Option<seq<(string, ZoneInfo)>>
  {
    if zones == [] then Some([])
    else
      var init := AllRecords(zones[..|zones| - 1]);
      var last := DestinationRecords(zones[|zones| - 1]);
      if init.Some? && last.Some? then Some(init.value + last.value) else Option.None
  }

  /** mapping[name] = info for each record in order: a later record overwrites. */
  function PutAll(m: map<string, ZoneInfo>, recs: seq<(string, ZoneInfo)>): map<string, ZoneInfo>
  {
    if recs == [] then m
    else PutAll(m, recs[..|recs| - 1])[recs[|recs| - 1].0 := recs[|recs| - 1].1]
  }

  lemma {:induction false} PutAllAppend(m: map<string, ZoneInfo>, a: seq<(string, ZoneInfo)>, b: seq<(string, ZoneInfo)>)
    ensures PutAll(m, a + b) == PutAll(PutAll(m, a), b)
    decreases |b|
  {
    if b == [] {
      assert a + b == a;
    } else {
      assert (a + b)[..|a + b| - 1] == a + b[..|b| - 1];
      PutAllAppend(m, a, b[..|b| - 1]);
    }
  }

  /**
   * The written map holds a key exactly when some record names it, and the
   * value under it is the info of a record with that name.
   */
  lemma {:induction false} PutAllSpec(recs: seq<(string, ZoneInfo)>)
    ensures forall k :: k in PutAll(map[], recs) <==> exists i :: 0 <= i < |recs| && recs[i].0 == k
    ensures forall k :: k in PutAll(map[], recs) ==> (k, PutAll(map[], recs)[k]) in recs
  {
    if recs != [] {
      var init := recs[..|recs| - 1];
      PutAllSpec(init);
      forall k ensures k in PutAll(map[], recs) <==> exists i :: 0 <= i < |recs| && recs[i].0 == k {
        if k in PutAll(map[], init) {
          var i :| 0 <= i < |init| && init[i].0 == k;
          assert recs[i].0 == k;
        }
        if k != recs[|recs| - 1].0 && exists i :: 0 <= i < |recs| && recs[i].0 == k {
          var i :| 0 <= i < |recs| && recs[i].0 == k;
          assert init[i].0 == k;
        }
      }
      forall k | k in PutAll(map[], recs) ensures (k, PutAll(map[], recs)[k]) in recs {
        if k != recs[|recs| - 1].0 {
          assert (k, PutAll(map[], init)[k]) in init;
        }
      }
    }
  }

  /** build_zone_map's result: the records written in order, or None when it raises. */
  function ZoneMapOf(zones: Entries): Option<map<string, ZoneInfo>>
  {
    var recs := AllRecords(zones);
    if recs.Some? then Some(PutAll(map[], recs.value)) else Option.None
  }

  /** The loop of _record_firewall. */
  method RecordFirewall(mapping: map<string, ZoneInfo>, names: seq<string>, s: string, d: string)
    returns (r: map<string, ZoneInfo>)
    ensures r == PutAll(mapping, NameRecords(names, s, d))
  {
    r := mapping;
    var i := 0;
    while i < |names|
      invariant 0 <= i <= |names|
      invariant r == PutAll(mapping, NameRecords(names[..i], s, d))
    {
      NameRecordsStep(names, i, s, d);
      var name := Strip(names[i]);
      if name != "" {
        PutAllAppend(mapping, NameRecords(names[..i], s, d), [(name, Info(s, d))]);
        r := r[name := Info(s, d)];
      } else {
        assert NameRecords(names[..i], s, d) + [] == NameRecords(names[..i], s, d);
      }
      i := i + 1;
    }
    assert names[..|names|] == names;
  }

  /** The loop over the "from" entries of one destination zone. */
  method RecordFrom(mapping: map<string, ZoneInfo>, dst: string, from: Entries)
    returns (r: Option<map<string, ZoneInfo>>)
    ensures FromRecords(dst, from).Some? ==> r == Some(PutAll(mapping, FromRecords(dst, from).value))
    ensures FromRecords(dst, from).None? ==> r.None?
  {
    var m := mapping;
    var i := 0;
    while i < |from|
      invariant 0 <= i <= |from|
      invariant FromRecords(dst, from[..i]).Some?
      invariant m == PutAll(mapping, FromRecords(dst, from[..i]).value)
    {
      FromRecordsStep(dst, from, i);
      var src := SanitiseZoneName(from[i].0);
      if src != "" {
        if !from[i].1.Map? {
          FromRecordsNoneAfter(dst, from, i + 1);
          return Option.None;
        }
        var names := ExtractNames(FirewallNames(from[i].1.entries));
        PutAllAppend(mapping, FromRecords(dst, from[..i]).value, NameRecords(names, src, dst));
        m := RecordFirewall(m, names, src, dst);
      } else {
        assert FromRecords(dst, from[..i]).value + [] == FromRecords(dst, from[..i]).value;
      }
      i := i + 1;
    }
    assert from[..|from|] == from;
    return Some(m);
  }

  lemma FromRecordsStep(dst: string, from: Entries, i: int)
    requires 0 <= i < |from|
    ensures FromRecords(dst, from[..i + 1]) ==
      var init := FromRecords(dst, from[..i]);
      var last := SourceRecords(dst, from[i]);
      if init.Some? && last.Some? then Some(init.value + last.value) else Option.None
  {
    assert from[..i + 1][..i] == from[..i];
  }

  lemma AllRecordsStep(zones: Entries, i: int)
    requires 0 <= i < |zones|
    ensures AllRecords(zones[..i + 1]) ==
      var init := AllRecords(zones[..i]);
      var last := DestinationRecords(zones[i]);
      if init.Some? && last.Some? then Some(init.value + last.value) else Option.None
  {
    assert zones[..i + 1][..i] == zones[..i];
  }

  lemma PutAllThree(done: seq<(string, ZoneInfo)>, fr: seq<(string, ZoneInfo)>, intra: seq<(string, ZoneInfo)>)
    ensures PutAll(map[], done + (fr + intra)) == PutAll(PutAll(PutAll(map[], done), fr), intra)
  {
    PutAllAppend(map[], done, fr + intra);
    PutAllAppend(PutAll(map[], done), fr, intra);
  }

  /** Once an entry raises, the whole walk raises. */
  lemma {:induction false} FromRecordsNoneAfter(dst: string, from: Entries, n: nat)
    requires 0 < n <= |from| && FromRecords(dst, from[..n]).None?
    ensures FromRecords(dst, from).None?
    decreases |from| - n
  {
    if n < |from| {
      assert from[..n + 1][..n] == from[..n];
      FromRecordsNoneAfter(dst, from, n + 1);
    } else {
      assert from[..n] == from;
    }
  }

  lemma {:induction false} AllRecordsNoneAfter(zones: Entries, n: nat)
    requires 0 < n <= |zones| && AllRecords(zones[..n]).None?
    ensures AllRecords(zones).None?
    decreases |zones| - n
  {
    if n < |zones| {
      assert zones[..n + 1][..n] == zones[..n];
      AllRecordsNoneAfter(zones, n + 1);
    } else {
      assert zones[..n] == zones;
    }
  }

  /** The intra-zone step of one destination zone. */
  method RecordIntra(mapping: map<string, ZoneInfo>, dst: string, cfg: Entries) returns (r: map<string, ZoneInfo>)
    ensures r == PutAll(mapping, IntraRecords(dst, cfg))
  {
    var names := FirewallNames(MappingOf(Get(cfg, "intra-zone-filtering")));
    if Truthy(names) {
      r := RecordFirewall(mapping, ExtractNames(names), dst, dst);
    } else {
      r := mapping;
    }
  }

  /** build_zone_map as the source runs it: nested loops over zones, sources and names. */
  method BuildZoneMap(zones: Entries) returns (r: Option<map<string, ZoneInfo>>)
    ensures r == ZoneMapOf(zones)
  {
    var m: map<string, ZoneInfo> := map[];
    var i := 0;
    while i < |zones|
      invariant 0 <= i <= |zones|
      invariant AllRecords(zones[..i]).Some?
      invariant m == PutAll(map[], AllRecords(zones[..i]).value)
    {
      AllRecordsStep(zones, i);
      var dst := SanitiseZoneName(zones[i].0);
      if dst != "" {
        if !zones[i].1.Map? {
          AllRecordsNoneAfter(zones, i + 1);
          return Option.None;
        }
        var cfg := zones[i].1.entries;
        var from := MappingOf(Get(cfg, "from"));
        var fromMap := RecordFrom(m, dst, from);
        if fromMap.None? {
          AllRecordsNoneAfter(zones, i + 1);
          return Option.None;
        }
        PutAllThree(AllRecords(zones[..i]).value, FromRecords(dst, from).value, IntraRecords(dst, cfg));
        m := RecordIntra(fromMap.value, dst, cfg);
      } else {
        assert AllRecords(zones[..i]).value + [] == AllRecords(zones[..i]).value;
      }
      i := i + 1;
    }
    assert zones[..|zones|] == zones;
    return Some(m);
  }

  /** Every record of the zone map is labelled "S -> D" with both ends non-empty sanitised zone names. */
  predicate WellFormed(x: (string, ZoneInfo))
  {
    x.0 != [] && x.1.zoneLabel == x.1.source + " -> " + x.1.destination &&
    x.1.source != [] && SanitiseZoneName(x.1.source) == x.1.source &&
    x.1.destination != [] && SanitiseZoneName(x.1.destination) == x.1.destination
  }

  lemma NameRecordsWellFormed(names: seq<string>, s: string, d: string)
    requires s == SanitiseZoneName(s) && s != [] && d == SanitiseZoneName(d) && d != []
    ensures forall x :: x in NameRecords(names, s, d) ==> WellFormed(x)
  {
    NameRecordsSpec(names, s, d);
  }

  lemma {:induction false} FromRecordsWellFormed(dst: string, from: Entries)
    requires dst == SanitiseZoneName(dst) && dst != [] && FromRecords(dst, from).Some?
    ensures forall x :: x in FromRecords(dst, from).value ==> WellFormed(x)
  {
    if from != [] {
      FromRecordsWellFormed(dst, from[..|from| - 1]);
      var e := from[|from| - 1];
      var src := SanitiseZoneName(e.0);
      if src != "" {
        SanitiseZoneNameIdempotent(e.0);
        NameRecordsWellFormed(ExtractNames(FirewallNames(e.1.entries)), src, dst);
      }
    }
  }

  lemma DestinationRecordsWellFormed(entry: (string, Node))
    requires DestinationRecords(entry).Some?
    ensures forall x :: x in DestinationRecords(entry).value ==> WellFormed(x)
  {
    var dst := SanitiseZoneName(entry.0);
    if dst != "" {
      SanitiseZoneNameIdempotent(entry.0);
      FromRecordsWellFormed(dst, MappingOf(Get(entry.1.entries, "from")));
      var names := FirewallNames(MappingOf(Get(entry.1.entries, "intra-zone-filtering")));
      NameRecordsWellFormed(ExtractNames(names), dst, dst);
    }
  }

  lemma {:induction false} AllRecordsWellFormed(zones: Entries)
    requires AllRecords(zones).Some?
    ensures forall x :: x in AllRecords(zones).value ==> WellFormed(x)
  {
    if zones != [] {
      AllRecordsWellFormed(zones[..|zones| - 1]);
      DestinationRecordsWellFormed(zones[|zones| - 1]);
    }
  }

  /**
   * Every entry of the zone map names a firewall and is labelled "S -> D", where
   * S and D are the non-empty sanitised names of the zones it was found under:
   * zones and sources whose names sanitise to "" contribute nothing.
   */
  lemma ZoneMapWellFormed(zones: Entries)
    requires ZoneMapOf(zones).Some?
    ensures forall k :: k in ZoneMapOf(zones).value ==> WellFormed((k, ZoneMapOf(zones).value[k]))
  {
    var recs := AllRecords(zones).value;
    PutAllSpec(recs);
    AllRecordsWellFormed(zones);
  }

  lemma {:induction false} AllRecordsContain(zones: Entries, i: int)
    requires AllRecords(zones).Some? && 0 <= i < |zones|
    ensures DestinationRecords(zones[i]).Some?
    ensures forall x :: x in DestinationRecords(zones[i]).value ==> x in AllRecords(zones).value
  {
    if i < |zones| - 1 {
      AllRecordsContain(zones[..|zones| - 1], i);
    }
  }

  lemma {:induction false} FromRecordsContain(dst: string, from: Entries, j: int)
    requires FromRecords(dst, from).Some? && 0 <= j < |from|
    ensures SourceRecords(dst, from[j]).Some?
    ensures forall x :: x in SourceRecords(dst, from[j]).value ==> x in FromRecords(dst, from).value
  {
    if j < |from| - 1 {
      FromRecordsContain(dst, from[..|from| - 1], j);
    }
  }

  /**
   * A firewall named `n` under zone D "from" S is in the map, provided D and S
   * do not sanitise to "" and the map was built.
   */
  lemma FromFirewallRecorded(zones: Entries, i: int, j: int, n: string)
    requires ZoneMapOf(zones).Some? && 0 <= i < |zones|
    requires SanitiseZoneName(zones[i].0) != [] && zones[i].1.Map?
    requires var from := MappingOf(Get(zones[i].1.entries, "from"));
      0 <= j < |from| && SanitiseZoneName(from[j].0) != [] && from[j].1.Map? &&
      n in ExtractNames(FirewallNames(from[j].1.entries)) && Strip(n) != []
    ensures Strip(n) in ZoneMapOf(zones).value
  {
    var dst := SanitiseZoneName(zones[i].0);
    var from := MappingOf(Get(zones[i].1.entries, "from"));
    AllRecordsContain(zones, i);
    FromRecordsContain(dst, from, j);
    var src := SanitiseZoneName(from[j].0);
    NameRecordsSpec(ExtractNames(FirewallNames(from[j].1.entries)), src, dst);
    var x := (Strip(n), Info(src, dst));
    assert x in SourceRecords(dst, from[j]).value;
    assert x in AllRecords(zones).value;
    PutAllSpec(AllRecords(zones).value);
  }

  /**
   * An intra-zone-filtering firewall of zone D is in the map, recorded with D
   * as both source and destination; each value in the map is that of some
   * record, so a name used only as an intra-zone firewall maps to (D, D).
   */
  lemma IntraFirewallRecorded(zones: Entries, i: int, n: string)
    requires ZoneMapOf(zones).Some? && 0 <= i < |zones|
    requires SanitiseZoneName(zones[i].0) != [] && zones[i].1.Map?
    requires var names := FirewallNames(MappingOf(Get(zones[i].1.entries, "intra-zone-filtering")));
      Truthy(names) && n in ExtractNames(names) && Strip(n) != []
    ensures Strip(n) in ZoneMapOf(zones).value
    ensures (Strip(n), Info(SanitiseZoneName(zones[i].0), SanitiseZoneName(zones[i].0))) in AllRecords(zones).value
  {
    var dst := SanitiseZoneName(zones[i].0);
    var x := (Strip(n), Info(dst, dst));
    AllRecordsContain(zones, i);
    IntraRecordIn(dst, zones[i].1.entries, n);
    IntraInDestination(zones[i], x);
    RecordKeyInMap(AllRecords(zones).value, x);
  }

  /** A non-blank intra-zone firewall name gives a record with the zone at both ends. */
  lemma IntraRecordIn(dst: string, cfg: Entries, n: string)
    requires var names := FirewallNames(MappingOf(Get(cfg, "intra-zone-filtering")));
      Truthy(names) && n in ExtractNames(names) && Strip(n) != []
    ensures (Strip(n), Info(dst, dst)) in IntraRecords(dst, cfg)
  {
    NameRecordsSpec(ExtractNames(FirewallNames(MappingOf(Get(cfg, "intra-zone-filtering")))), dst, dst);
  }

  /** The intra-zone records of a destination zone are among its records. */
  lemma IntraInDestination(entry: (string, Node), x: (string, ZoneInfo))
    requires DestinationRecords(entry).Some? && SanitiseZoneName(entry.0) != [] && entry.1.Map?
    requires x in IntraRecords(SanitiseZoneName(entry.0), entry.1.entries)
    ensures x in DestinationRecords(entry).value
  {
  }

  /** A recorded name is a key of the written map. */
  lemma RecordKeyInMap(recs: seq<(string, ZoneInfo)>, x: (string, ZoneInfo))
    requires x in recs
    ensures x.0 in PutAll(map[], recs)
  {
    PutAllSpec(recs);
    var i :| 0 <= i < |recs| && recs[i] == x;
    assert recs[i].0 == x.0;
  }

  // ---------------------------------------------------------------------------
  // list_unassigned_interfaces

  /** Interface names compare case-insensitively after the "@" suffix is dropped. */
  function Assigned(zoneConfig: Entries): set<string>
  {
    set z, m | z in ZoneMembership(zoneConfig) && m in z.1 :: Lower(IfaceKey(m))
  }

  /** Unclaimed: neither the name's key nor the name itself is claimed, case-insensitively. */
  predicate Unclaimed(name: string, claimed: set<string>)
  {
    Lower(IfaceKey(name)) !in claimed && Lower(name) !in claimed
  }

  /** The VLAN ids of one ethernet entry. */
  function VlanIds(data: Node): seq<string>
  {
    Keys(MappingOf(Get(MappingOf(data), "vif")))
  }

  /** The unclaimed names one ethernet entry contributes: itself, then its VLANs; none for a blank name. */
  function EntryCandidates(e: (string, Node), claimed: set<string>): seq<string>
  {
    if e.0 == "" then []
    else
      (if Unclaimed(e.0, claimed) then [e.0] else []) +
      VlanCandidates(e.0, VlanIds(e.1), claimed)
  }

  function VlanCandidates(base: string, ids: seq<string>, claimed: set<string>): seq<string>
  {
    if ids == [] then []
    else
      var name := base + "." + ids[|ids| - 1];
      VlanCandidates(base, ids[..|ids| - 1], claimed) + (if Unclaimed(name, claimed) then [name] else [])
  }

  function Candidates(eth: Entries, claimed: set<string>): seq<string>
  {
    if eth == [] then [] else Candidates(eth[..|eth| - 1], claimed) + EntryCandidates(eth[|eth| - 1], claimed)
  }

  /**
   * list_unassigned_interfaces: without a device, nothing; otherwise the sorted
   * distinct ethernet and "parent.vlan" names that no zone claims.
   */
  function ListUnassignedInterfaces(zoneConfig: Entries, hasDevice: bool, ifaceConfig: Node): (r: seq<string>)
    ensures !hasDevice ==> r == []
    ensures NoDuplicates(r)
    ensures forall i, j :: 0 <= i < j < |r| ==> StrLe(r[i], r[j]) && r[i] != r[j]
  {
    if !hasDevice then []
    else SortedSet(Candidates(MappingOf(Get(MappingOf(ifaceConfig), "ethernet")), Assigned(zoneConfig)))
  }

  lemma {:induction false} VlanCandidatesSpec(base: string, ids: seq<string>, claimed: set<string>, x: string)
    ensures x in VlanCandidates(base, ids, claimed) <==> Unclaimed(x, claimed) && exists v :: v in ids && x == base + "." + v
  {
    if ids != [] {
      var init := ids[..|ids| - 1];
      var last := ids[|ids| - 1];
      VlanCandidatesSpec(base, init, claimed, x);
      if Unclaimed(x, claimed) && exists v :: v in ids && x == base + "." + v {
        var v :| v in ids && x == base + "." + v;
        if v != last {
          assert v in init;
        }
      }
      if exists v :: v in init && x == base + "." + v {
        var v :| v in init && x == base + "." + v;
        assert v in ids;
      }
      if x == base + "." + last {
        assert last in ids;
      }
    }
  }

  /** The names an ethernet entry offers, claimed or not: its own and one per VLAN id. */
  predicate Offers(e: (string, Node), x: string)
  {
    e.0 != [] && (x == e.0 || exists v :: v in VlanIds(e.1) && x == e.0 + "." + v)
  }

  /** One entry contributes exactly the unclaimed names it offers. */
  lemma EntryCandidatesSpec(e: (string, Node), claimed: set<string>, x: string)
    ensures x in EntryCandidates(e, claimed) <==> Unclaimed(x, claimed) && Offers(e, x)
  {
    if e.0 != "" {
      VlanCandidatesSpec(e.0, VlanIds(e.1), claimed, x);
    }
  }

  lemma {:induction false} CandidatesSpec(eth: Entries, claimed: set<string>, x: string)
    ensures x in Candidates(eth, claimed) <==> Unclaimed(x, claimed) && exists i :: 0 <= i < |eth| && Offers(eth[i], x)
  {
    if eth != [] {
      var init := eth[..|eth| - 1];
      var e := eth[|eth| - 1];
      CandidatesSpec(init, claimed, x);
      EntryCandidatesSpec(e, claimed, x);
      assert Candidates(eth, claimed) == Candidates(init, claimed) + EntryCandidates(e, claimed);
      if exists i :: 0 <= i < |eth| && Offers(eth[i], x) {
        var i :| 0 <= i < |eth| && Offers(eth[i], x);
        if i < |eth| - 1 {
          assert Offers(init[i], x);
        }
      }
      if exists i :: 0 <= i < |init| && Offers(init[i], x) {
        var i :| 0 <= i < |init| && Offers(init[i], x);
        assert Offers(eth[i], x);
      }
    }
  }

  /**
   * With a device, a name is listed exactly when an ethernet entry with a
   * non-blank name offers it (as itself or as "parent.vlan") and no zone claims
   * it, comparing case-insensitively with "@" suffixes dropped.
   */
  lemma UnassignedSpec(zoneConfig: Entries, ifaceConfig: Node, x: string)
    ensures var eth := MappingOf(Get(MappingOf(ifaceConfig), "ethernet"));
      x in ListUnassignedInterfaces(zoneConfig, true, ifaceConfig) <==>
        Unclaimed(x, Assigned(zoneConfig)) && exists i :: 0 <= i < |eth| && Offers(eth[i], x)
  {
    CandidatesSpec(MappingOf(Get(MappingOf(ifaceConfig), "ethernet")), Assigned(zoneConfig), x);
  }

  // ---------------------------------------------------------------------------
  // Seed firewalls

  function FirewallRoot(name: string): Path
  {
    ["firewall", "ipv4", "name", name]
  }

  /**
   * build_firewall_seed_commands: the firewall root and a drop default action,
   * and with `seedAccept` a rule 10 that accepts.
   */
  function BuildFirewallSeedCommands(name: string, seedAccept: bool): (r: seq<Path>)
    ensures |r| >= 2 && r[0] == FirewallRoot(name) && r[1] == Under(FirewallRoot(name), ["default-action", "drop"])
    ensures AllUnder(r, FirewallRoot(name))
    ensures Under(FirewallRoot(name), ["rule", "10", "action", "accept"]) in r <==> seedAccept
    ensures Under(FirewallRoot(name), ["rule", "10"]) in r <==> seedAccept
    ensures NoDuplicates(r)
  {
    var root := FirewallRoot(name);
    [root, Under(root, ["default-action", "drop"])] +
    (if seedAccept then [Under(root, ["rule", "10"]), Under(root, ["rule", "10", "action", "accept"])] else [])
  }
}
