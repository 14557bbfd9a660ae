/**
 * The DHCP scope editor of the web application: the builders that turn a scope
 * payload into set paths, the diff that turns an edit into delete paths, the
 * payload validator, and the batches create_dhcp and update_dhcp send.
 *
 * The payload is typed: a scalar field is an optional string (missing or null is
 * None), a list field is a list of optional strings, a flag is its truthiness.
 */
module DhcpScope {
  import opened Wrappers
  import opened Text
  import opened Paths
  import opened Device

  datatype Mapping = Mapping(
    name: Option<string>, mac: Option<string>, duid: Option<string>, ipAddress: Option<string>,
    ipv6Address: Option<string>, ipv6Prefix: Option<string>, hostname: Option<string>)

  datatype Scope = Scope(
    sharedNetwork: Option<string>, subnet: Option<string>, subnetId: Option<string>,
    defaultRouter: Option<string>, domainName: Option<string>,
    dnsServers: seq<Option<string>>, searchDomains: seq<Option<string>>,
    startAddress: Option<string>, endAddress: Option<string>, lease: Option<string>,
    excludes: seq<Option<string>>, authoritative: bool, staticMappings: seq<Mapping>, enabled: bool)

  /** highAvailability: sourceAddress and remoteAddress are the alternative spellings. */
  datatype Ha = Ha(
    mode: Option<string>, status: Option<string>, sourceAddress: Option<string>, sourceAddressAlt: Option<string>,
    remote: Option<string>, remoteAlt: Option<string>, name: Option<string>)

  /** Global settings; `ha` is None when highAvailability is missing or an empty dict. */
  datatype Global = Global(hostfileUpdate: bool, listenAddresses: seq<Option<string>>, ha: Option<Ha>)

  // ---------------------------------------------------------------------
  // Field values as the builders read them

  /** `strip_or_none(v)` when it is truthy: the stripped text, if it is not blank. */
  function Given(v: Option<string>): (r: Option<string>)
    ensures r.Some? <==> v.Some? && Strip(v.value) != []
    ensures r.Some? ==> r.value != [] && Strip(r.value) == r.value
  {
    if v.Some? && Strip(v.value) != [] then
      StripIdempotent(v.value);
      Some(Strip(v.value))
    else Option.None
  }

  /** The values a list field contributes, as a set (what `set(...)` collects in the diff). */
  function GivenSet(vs: seq<Option<string>>): set<string>
  {
    set i | 0 <= i < |vs| && Given(vs[i]).Some? :: Given(vs[i]).value
  }

  /** The value a single optional field contributes. */
  function OptSet(v: Option<string>): set<string>
  {
    if Given(v).Some? then {Given(v).value} else {}
  }

  lemma GivenSetSnoc(vs: seq<Option<string>>)
    requires vs != []
    ensures GivenSet(vs) == GivenSet(vs[..|vs| - 1]) + OptSet(vs[|vs| - 1])
  {
    var init := vs[..|vs| - 1];
    forall x | x in GivenSet(vs) ensures x in GivenSet(init) + OptSet(vs[|vs| - 1]) {
      var i :| 0 <= i < |vs| && Given(vs[i]).Some? && Given(vs[i]).value == x;
      if i < |vs| - 1 {
        assert init[i] == vs[i];
      }
    }
    forall x | x in GivenSet(init) ensures x in GivenSet(vs) {
      var i :| 0 <= i < |init| && Given(init[i]).Some? && Given(init[i]).value == x;
      assert vs[i] == init[i];
    }
  }

  // ---------------------------------------------------------------------
  // Reading a batch back: the values that sit directly under a key path

  /** `p` is `k` followed by exactly one value token. */
  predicate Keyed(p: Path, k: Path)
  {
    |p| == |k| + 1 && p[..|k|] == k
  }

  /** The values a batch places directly under `k`. */
  function Read(ps: seq<Path>, k: Path): set<string>
  {
    set p | p in ps && Keyed(p, k) :: p[|k|]
  }

  lemma ReadAppend(a: seq<Path>, b: seq<Path>, k: Path)
    ensures Read(a + b, k) == Read(a, k) + Read(b, k)
  {
    assert forall p :: p in a + b <==> p in a || p in b;
  }

  /** A value path is the only path of its length under its key that ends in its value. */
  lemma KeyedUnique(p: Path, k: Path, v: string)
    requires Keyed(p, k) && p[|k|] == v
    ensures p == k + [v]
  {
  }

  // ---------------------------------------------------------------------
  // The pieces of a set batch

  /** One path per non-blank entry of a list field, in order. */
  function ValuePaths(pre: Path, vs: seq<Option<string>>): seq<Path>
  {
    if vs == [] then []
    else ValuePaths(pre, vs[..|vs| - 1]) + OptPath(pre, vs[|vs| - 1])
  }

  /** One path for an optional field, when it is not blank. */
  function OptPath(pre: Path, v: Option<string>): seq<Path>
  {
    if Given(v).Some? then [pre + [Given(v).value]] else []
  }

  lemma OptPathKeyed(pre: Path, v: Option<string>)
    ensures forall p :: p in OptPath(pre, v) ==> Keyed(p, pre)
  {
    if Given(v).Some? {
      assert (pre + [Given(v).value])[..|pre|] == pre;
    }
  }

  lemma {:induction false} ValuePathsKeyed(pre: Path, vs: seq<Option<string>>)
    ensures forall p :: p in ValuePaths(pre, vs) ==> Keyed(p, pre)
    decreases |vs|
  {
    if vs != [] {
      ValuePathsKeyed(pre, vs[..|vs| - 1]);
      OptPathKeyed(pre, vs[|vs| - 1]);
    }
  }

  lemma ReadOptPath(pre: Path, v: Option<string>, k: Path)
    ensures Read(OptPath(pre, v), k) == if k == pre then OptSet(v) else {}
  {
    if Given(v).Some? {
      var p := pre + [Given(v).value];
      assert OptPath(pre, v) == [p];
      ReadSingle(p, k);
      assert p[..|pre|] == pre;
      if Keyed(p, k) {
        assert k == p[..|k|] == pre;
      }
    } else {
      assert OptPath(pre, v) == [];
    }
  }

  lemma ReadSingle(p: Path, k: Path)
    ensures Read([p], k) == if Keyed(p, k) then {p[|k|]} else {}
  {
    assert forall q :: q in [p] <==> q == p;
  }

  /** Reading a list field's paths back gives exactly the field's non-blank values. */
  lemma {:induction false} ReadValuePaths(pre: Path, vs: seq<Option<string>>, k: Path)
    ensures Read(ValuePaths(pre, vs), k) == if k == pre then GivenSet(vs) else {}
    decreases |vs|
  {
    if vs != [] {
      ReadValuePaths(pre, vs[..|vs| - 1], k);
      ReadOptPath(pre, vs[|vs| - 1], k);
      ReadAppend(ValuePaths(pre, vs[..|vs| - 1]), OptPath(pre, vs[|vs| - 1]), k);
      GivenSetSnoc(vs);
    }
  }

  function ScopeBase(shared: string): (r: Path)
    ensures |r| == 4 && r[2] == "shared-network-name" && r[3] == shared
  {
    ["service", "dhcp-server", "shared-network-name", shared]
  }

  function SubnetPath(shared: string, subnet: string): (r: Path)
    ensures |r| == 6 && HasPrefix(r, ScopeBase(shared)) && r[4] == "subnet" && r[5] == subnet
  {
    ScopeBase(shared) + ["subnet", subnet]
  }

  /** Value paths under a key that lies below `sp` lie below `sp` too. */
  lemma KeyedBelow(ps: seq<Path>, pre: Path, sp: Path)
    requires forall p :: p in ps ==> Keyed(p, pre)
    requires HasPrefix(pre, sp) && |pre| > |sp|
    ensures forall p :: p in ps ==> HasPrefix(p, sp) && |p| == |pre| + 1 && p[|sp|] == pre[|sp|]
  {
    forall p | p in ps ensures HasPrefix(p, sp) && |p| == |pre| + 1 && p[|sp|] == pre[|sp|] {
      assert p[..|pre|] == pre;
      assert p[..|sp|] == pre[..|sp|];
    }
  }

  /** A path below the static mapping called `name`. */
  predicate MappingShaped(p: Path, sp: Path)
  {
    |p| == |sp| + 4 && HasPrefix(p, sp) && p[|sp|] == "static-mapping"
  }

  /** One field of a static mapping, when it is not blank. */
  function MappingField(sp: Path, name: string, field: string, v: Option<string>): seq<Path>
  {
    if Given(v).Some? then [sp + ["static-mapping", name, field, Given(v).value]] else []
  }

  lemma MappingFieldShape(sp: Path, name: string, field: string, v: Option<string>)
    ensures forall p :: p in MappingField(sp, name, field, v) ==> MappingShaped(p, sp)
  {
    if Given(v).Some? {
      assert (sp + ["static-mapping", name, field, Given(v).value])[..|sp|] == sp;
    }
  }

  /** The optional fields of a static mapping, with the config key each one is written under. */
  function MappingFields(m: Mapping): seq<(string, Option<string>)>
  {
    [("mac", m.mac), ("duid", m.duid), ("ip-address", m.ipAddress),
     ("ipv6-address", m.ipv6Address), ("ipv6-prefix", m.ipv6Prefix), ("hostname", m.hostname)]
  }

  function FieldPaths(sp: Path, name: string, fs: seq<(string, Option<string>)>): seq<Path>
  {
    if fs == [] then []
    else FieldPaths(sp, name, fs[..|fs| - 1]) + MappingField(sp, name, fs[|fs| - 1].0, fs[|fs| - 1].1)
  }

  lemma {:induction false} FieldPathsShape(sp: Path, name: string, fs: seq<(string, Option<string>)>)
    ensures forall p :: p in FieldPaths(sp, name, fs) ==> MappingShaped(p, sp)
    decreases |fs|
  {
    if fs != [] {
      FieldPathsShape(sp, name, fs[..|fs| - 1]);
      MappingFieldShape(sp, name, fs[|fs| - 1].0, fs[|fs| - 1].1);
    }
  }

  /** The paths of one static mapping; a mapping with a blank name contributes nothing. */
  function MappingPaths(sp: Path, m: Mapping): seq<Path>
  {
    if Given(m.name).None? then [] else FieldPaths(sp, Given(m.name).value, MappingFields(m))
  }

  lemma MappingPathsShape(sp: Path, m: Mapping)
    ensures forall p :: p in MappingPaths(sp, m) ==> MappingShaped(p, sp)
  {
    if Given(m.name).Some? {
      FieldPathsShape(sp, Given(m.name).value, MappingFields(m));
    }
  }

  function MappingsPaths(sp: Path, ms: seq<Mapping>): seq<Path>
  {
    if ms == [] then [] else MappingsPaths(sp, ms[..|ms| - 1]) + MappingPaths(sp, ms[|ms| - 1])
  }

  lemma {:induction false} MappingsPathsShape(sp: Path, ms: seq<Mapping>)
    ensures forall p :: p in MappingsPaths(sp, ms) ==> MappingShaped(p, sp)
    decreases |ms|
  {
    if ms != [] {
      MappingsPathsShape(sp, ms[..|ms| - 1]);
      MappingPathsShape(sp, ms[|ms| - 1]);
    }
  }

  /** Static mappings are read only under a key that itself starts with "static-mapping". */
  lemma ReadMappingsPaths(sp: Path, ms: seq<Mapping>, k: Path)
    requires |k| != |sp| + 3 || k[|sp|] != "static-mapping"
    ensures Read(MappingsPaths(sp, ms), k) == {}
  {
    MappingsPathsShape(sp, ms);
  }

  /** The key paths of the subnet options a scope sets. */
  function RouterKey(sp: Path): (r: Path)
    ensures |r| == |sp| + 2 && r[..|sp|] == sp && r[|sp|] == "option" && r[|sp| + 1] == "default-router"
  {
    sp + ["option", "default-router"]
  }

  function DomainKey(sp: Path): (r: Path)
    ensures |r| == |sp| + 2 && r[..|sp|] == sp && r[|sp|] == "option" && r[|sp| + 1] == "domain-name"
  {
    sp + ["option", "domain-name"]
  }

  function NameServerKey(sp: Path): (r: Path)
    ensures |r| == |sp| + 2 && r[..|sp|] == sp && r[|sp|] == "option" && r[|sp| + 1] == "name-server"
  {
    sp + ["option", "name-server"]
  }

  function SearchKey(sp: Path): (r: Path)
    ensures |r| == |sp| + 2 && r[..|sp|] == sp && r[|sp|] == "option" && r[|sp| + 1] == "domain-search"
  {
    sp + ["option", "domain-search"]
  }

  function LeaseKey(sp: Path): (r: Path)
    ensures |r| == |sp| + 1 && r[..|sp|] == sp && r[|sp|] == "lease"
  {
    sp + ["lease"]
  }

  function StartKey(sp: Path): (r: Path)
    ensures |r| == |sp| + 3 && r[..|sp|] == sp && r[|sp|] == "range" && r[|sp| + 2] == "start"
  {
    sp + ["range", "0", "start"]
  }

  function StopKey(sp: Path): (r: Path)
    ensures |r| == |sp| + 3 && r[..|sp|] == sp && r[|sp|] == "range" && r[|sp| + 2] == "stop"
  {
    sp + ["range", "0", "stop"]
  }

  function ExcludeKey(sp: Path): (r: Path)
    ensures |r| == |sp| + 1 && r[..|sp|] == sp && r[|sp|] == "exclude"
  {
    sp + ["exclude"]
  }

  function SubnetIdKey(sp: Path): (r: Path)
    ensures |r| == |sp| + 1 && r[..|sp|] == sp && r[|sp|] == "subnet-id"
  {
    sp + ["subnet-id"]
  }

  function MappingKey(sp: Path): (r: Path)
    ensures |r| == |sp| + 1 && r[..|sp|] == sp && r[|sp|] == "static-mapping"
  {
    sp + ["static-mapping"]
  }

  /** The paths below the subnet, in the order _build_dhcp_set_commands appends them. */
  function SubnetCommands(sp: Path, s: Scope): seq<Path>
  {
    OptPath(RouterKey(sp), s.defaultRouter)
    + OptPath(DomainKey(sp), s.domainName)
    + ValuePaths(NameServerKey(sp), s.dnsServers)
    + ValuePaths(SearchKey(sp), s.searchDomains)
    + OptPath(LeaseKey(sp), s.lease)
    + OptPath(StartKey(sp), s.startAddress)
    + OptPath(StopKey(sp), s.endAddress)
    + ValuePaths(ExcludeKey(sp), s.excludes)
    + OptPath(SubnetIdKey(sp), s.subnetId)
    + MappingsPaths(sp, s.staticMappings)
  }

  /** Everything below the subnet is at least two tokens deeper than the subnet path. */
  lemma SubnetCommandsBelow(sp: Path, s: Scope)
    ensures forall p :: p in SubnetCommands(sp, s) ==> HasPrefix(p, sp) && |p| > |sp| + 1
  {
    OptPathKeyed(RouterKey(sp), s.defaultRouter);
    OptPathKeyed(DomainKey(sp), s.domainName);
    ValuePathsKeyed(NameServerKey(sp), s.dnsServers);
    ValuePathsKeyed(SearchKey(sp), s.searchDomains);
    OptPathKeyed(LeaseKey(sp), s.lease);
    OptPathKeyed(StartKey(sp), s.startAddress);
    OptPathKeyed(StopKey(sp), s.endAddress);
    ValuePathsKeyed(ExcludeKey(sp), s.excludes);
    OptPathKeyed(SubnetIdKey(sp), s.subnetId);
    MappingsPathsShape(sp, s.staticMappings);
    KeyedBelow(OptPath(RouterKey(sp), s.defaultRouter), RouterKey(sp), sp);
    KeyedBelow(OptPath(DomainKey(sp), s.domainName), DomainKey(sp), sp);
    KeyedBelow(ValuePaths(NameServerKey(sp), s.dnsServers), NameServerKey(sp), sp);
    KeyedBelow(ValuePaths(SearchKey(sp), s.searchDomains), SearchKey(sp), sp);
    KeyedBelow(OptPath(LeaseKey(sp), s.lease), LeaseKey(sp), sp);
    KeyedBelow(OptPath(StartKey(sp), s.startAddress), StartKey(sp), sp);
    KeyedBelow(OptPath(StopKey(sp), s.endAddress), StopKey(sp), sp);
    KeyedBelow(ValuePaths(ExcludeKey(sp), s.excludes), ExcludeKey(sp), sp);
    KeyedBelow(OptPath(SubnetIdKey(sp), s.subnetId), SubnetIdKey(sp), sp);
  }

  /** The values each option key of a subnet should hold for a payload. */
  function Expected(sp: Path, s: Scope, k: Path): set<string>
  {
    (if k == RouterKey(sp) then OptSet(s.defaultRouter) else {})
    + (if k == DomainKey(sp) then OptSet(s.domainName) else {})
    + (if k == NameServerKey(sp) then GivenSet(s.dnsServers) else {})
    + (if k == SearchKey(sp) then GivenSet(s.searchDomains) else {})
    + (if k == LeaseKey(sp) then OptSet(s.lease) else {})
    + (if k == StartKey(sp) then OptSet(s.startAddress) else {})
    + (if k == StopKey(sp) then OptSet(s.endAddress) else {})
    + (if k == ExcludeKey(sp) then GivenSet(s.excludes) else {})
    + (if k == SubnetIdKey(sp) then OptSet(s.subnetId) else {})
  }

  /** The option keys are pairwise distinct, so each reads back only its own field. */
  lemma ExpectedListKeys(sp: Path, s: Scope)
    ensures Expected(sp, s, NameServerKey(sp)) == GivenSet(s.dnsServers)
    ensures Expected(sp, s, SearchKey(sp)) == GivenSet(s.searchDomains)
    ensures Expected(sp, s, ExcludeKey(sp)) == GivenSet(s.excludes)
  {
  }

  lemma ExpectedScalarKeys(sp: Path, s: Scope)
    ensures Expected(sp, s, RouterKey(sp)) == OptSet(s.defaultRouter)
    ensures Expected(sp, s, DomainKey(sp)) == OptSet(s.domainName)
    ensures Expected(sp, s, LeaseKey(sp)) == OptSet(s.lease)
    ensures Expected(sp, s, StartKey(sp)) == OptSet(s.startAddress)
    ensures Expected(sp, s, StopKey(sp)) == OptSet(s.endAddress)
    ensures Expected(sp, s, SubnetIdKey(sp)) == OptSet(s.subnetId)
  {
  }

  /** What each option key of the subnet reads back as, piece by piece. */
  lemma ReadSubnetCommands(sp: Path, s: Scope, k: Path)
    requires |k| != |sp| + 3 || k[|sp|] != "static-mapping"
    ensures Read(SubnetCommands(sp, s), k) == Expected(sp, s, k)
  {
    var a1 := OptPath(RouterKey(sp), s.defaultRouter);
    var a2 := OptPath(DomainKey(sp), s.domainName);
    var a3 := ValuePaths(NameServerKey(sp), s.dnsServers);
    var a4 := ValuePaths(SearchKey(sp), s.searchDomains);
    var a5 := OptPath(LeaseKey(sp), s.lease);
    var a6 := OptPath(StartKey(sp), s.startAddress);
    var a7 := OptPath(StopKey(sp), s.endAddress);
    var a8 := ValuePaths(ExcludeKey(sp), s.excludes);
    var a9 := OptPath(SubnetIdKey(sp), s.subnetId);
    var a10 := MappingsPaths(sp, s.staticMappings);
    ReadOptPath(RouterKey(sp), s.defaultRouter, k);
    ReadOptPath(DomainKey(sp), s.domainName, k);
    ReadValuePaths(NameServerKey(sp), s.dnsServers, k);
    ReadValuePaths(SearchKey(sp), s.searchDomains, k);
    ReadOptPath(LeaseKey(sp), s.lease, k);
    ReadOptPath(StartKey(sp), s.startAddress, k);
    ReadOptPath(StopKey(sp), s.endAddress, k);
    ReadValuePaths(ExcludeKey(sp), s.excludes, k);
    ReadOptPath(SubnetIdKey(sp), s.subnetId, k);
    ReadMappingsPaths(sp, s.staticMappings, k);
    ReadAppend(a1, a2, k);
    ReadAppend(a1 + a2, a3, k);
    ReadAppend(a1 + a2 + a3, a4, k);
    ReadAppend(a1 + a2 + a3 + a4, a5, k);
    ReadAppend(a1 + a2 + a3 + a4 + a5, a6, k);
    ReadAppend(a1 + a2 + a3 + a4 + a5 + a6, a7, k);
    ReadAppend(a1 + a2 + a3 + a4 + a5 + a6 + a7, a8, k);
    ReadAppend(a1 + a2 + a3 + a4 + a5 + a6 + a7 + a8, a9, k);
    ReadAppend(a1 + a2 + a3 + a4 + a5 + a6 + a7 + a8 + a9, a10, k);
  }

  /** The whole scope for a (non-blank) shared network and subnet. */
  function ScopeCommands(shared: string, subnet: string, s: Scope): seq<Path>
  {
    (if s.authoritative then [ScopeBase(shared) + ["authoritative"]] else [])
    + SubnetCommands(SubnetPath(shared, subnet), s)
  }

  /**
   * Every path of a scope lies below its shared network; only the authoritative
   * flag sits directly there, everything else lies deeper below the subnet.
   */
  lemma ScopeCommandsShape(shared: string, subnet: string, s: Scope)
    ensures forall p :: p in ScopeCommands(shared, subnet, s) ==> HasPrefix(p, ScopeBase(shared))
    ensures forall p :: p in ScopeCommands(shared, subnet, s) ==>
      p == ScopeBase(shared) + ["authoritative"] || (HasPrefix(p, SubnetPath(shared, subnet)) && |p| > 7)
  {
    var base := ScopeBase(shared);
    var sp := SubnetPath(shared, subnet);
    var auth: seq<Path> := if s.authoritative then [base + ["authoritative"]] else [];
    var rest := SubnetCommands(sp, s);
    assert ScopeCommands(shared, subnet, s) == auth + rest;
    SubnetCommandsBelow(sp, s);
    assert sp[..4] == base;
    forall p | p in auth + rest
      ensures HasPrefix(p, base)
      ensures p == base + ["authoritative"] || (HasPrefix(p, sp) && |p| > 7)
    {
      if p in rest {
        PrefixTrans(p, sp, base);
      } else {
        assert p == base + ["authoritative"];
        assert p[..4] == base;
      }
    }
  }

  /** _build_dhcp_set_commands: the whole desired scope, or the missing-identity error. */
  function SetCommands(s: Scope): (r: Result<seq<Path>>)
    ensures r.Err? <==> Given(s.sharedNetwork).None? || Given(s.subnet).None?
    ensures r.Err? ==> r.error == "Missing shared network or subnet"
  {
    if Given(s.sharedNetwork).None? || Given(s.subnet).None? then Err("Missing shared network or subnet")
    else Ok(ScopeCommands(Given(s.sharedNetwork).value, Given(s.subnet).value, s))
  }

  /** Below the shared network, only the subnet's pieces can be read under a deep key. */
  lemma ReadScopeKey(shared: string, subnet: string, s: Scope, k: Path)
    requires |k| > 4
    ensures Read(ScopeCommands(shared, subnet, s), k) == Read(SubnetCommands(SubnetPath(shared, subnet), s), k)
  {
    var auth: seq<Path> := if s.authoritative then [ScopeBase(shared) + ["authoritative"]] else [];
    ReadAppend(auth, SubnetCommands(SubnetPath(shared, subnet), s), k);
    assert Read(auth, k) == {};
  }

  /** A deep key of the set batch reads back what the payload expects under it. */
  lemma SetCommandsRead(s: Scope, shared: string, subnet: string, k: Path)
    requires Given(s.sharedNetwork) == Some(shared) && Given(s.subnet) == Some(subnet)
    requires |k| > 6 && (|k| != 9 || k[6] != "static-mapping")
    ensures SetCommands(s).Ok? && Read(SetCommands(s).value, k) == Expected(SubnetPath(shared, subnet), s, k)
  {
    var sp := SubnetPath(shared, subnet);
    assert SetCommands(s) == Ok(ScopeCommands(shared, subnet, s));
    assert |sp| == 6;
    ReadScopeKey(shared, subnet, s, k);
    ReadSubnetCommands(sp, s, k);
  }

  /**
   * The set batch re-emits the whole desired scope: reading it back under each
   * option key gives exactly the payload's non-blank values, and the
   * authoritative flag is set exactly when the payload asks for it.
   */
  lemma SetCommandsReadBack(s: Scope, shared: string, subnet: string)
    requires Given(s.sharedNetwork) == Some(shared) && Given(s.subnet) == Some(subnet)
    ensures SetCommands(s).Ok?
    ensures var r := SetCommands(s).value; var sp := SubnetPath(shared, subnet);
      && Read(r, RouterKey(sp)) == OptSet(s.defaultRouter)
      && Read(r, DomainKey(sp)) == OptSet(s.domainName)
      && Read(r, NameServerKey(sp)) == GivenSet(s.dnsServers)
      && Read(r, SearchKey(sp)) == GivenSet(s.searchDomains)
      && Read(r, LeaseKey(sp)) == OptSet(s.lease)
      && Read(r, StartKey(sp)) == OptSet(s.startAddress)
      && Read(r, StopKey(sp)) == OptSet(s.endAddress)
      && Read(r, ExcludeKey(sp)) == GivenSet(s.excludes)
      && Read(r, SubnetIdKey(sp)) == OptSet(s.subnetId)
  {
    var sp := SubnetPath(shared, subnet);
    SetCommandsRead(s, shared, subnet, RouterKey(sp));
    SetCommandsRead(s, shared, subnet, DomainKey(sp));
    SetCommandsRead(s, shared, subnet, NameServerKey(sp));
    SetCommandsRead(s, shared, subnet, SearchKey(sp));
    SetCommandsRead(s, shared, subnet, LeaseKey(sp));
    SetCommandsRead(s, shared, subnet, StartKey(sp));
    SetCommandsRead(s, shared, subnet, StopKey(sp));
    SetCommandsRead(s, shared, subnet, ExcludeKey(sp));
    SetCommandsRead(s, shared, subnet, SubnetIdKey(sp));
    ExpectedListKeys(sp, s);
    ExpectedScalarKeys(sp, s);
  }

  /** The flag directly below the shared network is set exactly when the payload asks for it. */
  lemma SetCommandsAuthoritative(s: Scope, shared: string, subnet: string)
    requires Given(s.sharedNetwork) == Some(shared) && Given(s.subnet) == Some(subnet)
    ensures SetCommands(s).Ok?
    ensures ScopeBase(shared) + ["authoritative"] in SetCommands(s).value <==> s.authoritative
  {
    var sp := SubnetPath(shared, subnet);
    var p := ScopeBase(shared) + ["authoritative"];
    var auth: seq<Path> := if s.authoritative then [p] else [];
    assert SetCommands(s) == Ok(auth + SubnetCommands(sp, s));
    SubnetCommandsBelow(sp, s);
    assert p !in SubnetCommands(sp, s) by {
      assert |p| == 5;
    }
  }

  // ---------------------------------------------------------------------
  // _build_dhcp_set_commands as it runs: one append per field, one loop per list

  /** `if value: commands.append(pre + [value])`. */
  method AppendGiven(commands: seq<Path>, pre: Path, v: Option<string>) returns (r: seq<Path>)
    ensures r == commands + OptPath(pre, v)
  {
    r := commands;
    var value := Given(v);
    if value.Some? {
      r := r + [pre + [value.value]];
    }
  }

  /** The `for entry in values: ... if entry: commands.append(...)` loops. */
  method AppendValues(commands: seq<Path>, pre: Path, vs: seq<Option<string>>) returns (r: seq<Path>)
    ensures r == commands + ValuePaths(pre, vs)
  {
    r := commands;
    var i := 0;
    while i < |vs|
      invariant 0 <= i <= |vs|
      invariant r == commands + ValuePaths(pre, vs[..i])
    {
      assert vs[..i + 1][..i] == vs[..i];
      assert ValuePaths(pre, vs[..i + 1]) == ValuePaths(pre, vs[..i]) + OptPath(pre, vs[i]);
      AppendAssoc(commands, ValuePaths(pre, vs[..i]), OptPath(pre, vs[i]));
      r := AppendGiven(r, pre, vs[i]);
      i := i + 1;
    }
    assert vs[..|vs|] == vs;
  }

  /** The field-by-field appends for one named static mapping. */
  method AppendFields(commands: seq<Path>, sp: Path, name: string, fs: seq<(string, Option<string>)>)
    returns (r: seq<Path>)
    ensures r == commands + FieldPaths(sp, name, fs)
  {
    r := commands;
    var i := 0;
    while i < |fs|
      invariant 0 <= i <= |fs|
      invariant r == commands + FieldPaths(sp, name, fs[..i])
    {
      assert fs[..i + 1][..i] == fs[..i];
      assert FieldPaths(sp, name, fs[..i + 1]) == FieldPaths(sp, name, fs[..i]) + MappingField(sp, name, fs[i].0, fs[i].1);
      AppendAssoc(commands, FieldPaths(sp, name, fs[..i]), MappingField(sp, name, fs[i].0, fs[i].1));
      r := r + MappingField(sp, name, fs[i].0, fs[i].1);
      i := i + 1;
    }
    assert fs[..|fs|] == fs;
  }

  /** One static mapping: skipped when its name is blank, else one path per non-blank field. */
  method AppendMapping(commands: seq<Path>, sp: Path, m: Mapping) returns (r: seq<Path>)
    ensures r == commands + MappingPaths(sp, m)
  {
    var name := Given(m.name);
    if name.None? {
      return commands;
    }
    r := AppendFields(commands, sp, name.value, MappingFields(m));
  }

  lemma MappingsPathsSnoc(sp: Path, ms: seq<Mapping>, i: nat)
    requires i < |ms|
    ensures MappingsPaths(sp, ms[..i + 1]) == MappingsPaths(sp, ms[..i]) + MappingPaths(sp, ms[i])
  {
    assert ms[..i + 1][..i] == ms[..i];
  }

  method AppendMappings(commands: seq<Path>, sp: Path, ms: seq<Mapping>) returns (r: seq<Path>)
    ensures r == commands + MappingsPaths(sp, ms)
  {
    r := commands;
    var i := 0;
    while i < |ms|
      invariant 0 <= i <= |ms|
      invariant r == commands + MappingsPaths(sp, ms[..i])
    {
      MappingsPathsSnoc(sp, ms, i);
      AppendAssoc(commands, MappingsPaths(sp, ms[..i]), MappingPaths(sp, ms[i]));
      r := AppendMapping(r, sp, ms[i]);
      i := i + 1;
    }
    assert ms[..|ms|] == ms;
  }

  /** The subnet part of _build_dhcp_set_commands: one append per field, in order. */
  method AppendSubnet(head: seq<Path>, sp: Path, s: Scope) returns (commands: seq<Path>)
    ensures commands == head + SubnetCommands(sp, s)
  {
    commands := head;
    ghost var done: seq<Path> := [];
    commands := AppendGiven(commands, RouterKey(sp), s.defaultRouter);
    done := OptPath(RouterKey(sp), s.defaultRouter);
    AppendAssoc(head, done, OptPath(DomainKey(sp), s.domainName));
    commands := AppendGiven(commands, DomainKey(sp), s.domainName);
    done := done + OptPath(DomainKey(sp), s.domainName);
    AppendAssoc(head, done, ValuePaths(NameServerKey(sp), s.dnsServers));
    commands := AppendValues(commands, NameServerKey(sp), s.dnsServers);
    done := done + ValuePaths(NameServerKey(sp), s.dnsServers);
    AppendAssoc(head, done, ValuePaths(SearchKey(sp), s.searchDomains));
    commands := AppendValues(commands, SearchKey(sp), s.searchDomains);
    done := done + ValuePaths(SearchKey(sp), s.searchDomains);
    AppendAssoc(head, done, OptPath(LeaseKey(sp), s.lease));
    commands := AppendGiven(commands, LeaseKey(sp), s.lease);
    done := done + OptPath(LeaseKey(sp), s.lease);
    AppendAssoc(head, done, OptPath(StartKey(sp), s.startAddress));
    commands := AppendGiven(commands, StartKey(sp), s.startAddress);
    done := done + OptPath(StartKey(sp), s.startAddress);
    AppendAssoc(head, done, OptPath(StopKey(sp), s.endAddress));
    commands := AppendGiven(commands, StopKey(sp), s.endAddress);
    done := done + OptPath(StopKey(sp), s.endAddress);
    AppendAssoc(head, done, ValuePaths(ExcludeKey(sp), s.excludes));
    commands := AppendValues(commands, ExcludeKey(sp), s.excludes);
    done := done + ValuePaths(ExcludeKey(sp), s.excludes);
    AppendAssoc(head, done, OptPath(SubnetIdKey(sp), s.subnetId));
    commands := AppendGiven(commands, SubnetIdKey(sp), s.subnetId);
    done := done + OptPath(SubnetIdKey(sp), s.subnetId);
    AppendAssoc(head, done, MappingsPaths(sp, s.staticMappings));
    commands := AppendMappings(commands, sp, s.staticMappings);
    done := done + MappingsPaths(sp, s.staticMappings);
    assert done == SubnetCommands(sp, s);
  }

  method BuildDhcpSetCommands(s: Scope) returns (r: Result<seq<Path>>)
    ensures r == SetCommands(s)
  {
    var shared := Given(s.sharedNetwork);
    var subnet := Given(s.subnet);
    if shared.None? || subnet.None? {
      return Err("Missing shared network or subnet");
    }
    var base := ScopeBase(shared.value);
    var sp := SubnetPath(shared.value, subnet.value);
    var commands: seq<Path> := [];
    if s.authoritative {
      commands := [base + ["authoritative"]];
    }
    commands := AppendSubnet(commands, sp, s);
    assert commands == ScopeCommands(shared.value, subnet.value, s);
    r := Ok(commands);
  }

  // ---------------------------------------------------------------------
  // _build_delete_commands: what an edit of an existing scope removes

  /** The names the static-mapping dict comprehension keys a list by (blank names dropped). */
  function MappingNames(ms: seq<Mapping>): set<string>
  {
    set i | 0 <= i < |ms| && Given(ms[i].name).Some? :: Given(ms[i].name).value
  }

  lemma MappingNamesSnoc(ms: seq<Mapping>)
    requires ms != []
    ensures MappingNames(ms) == MappingNames(ms[..|ms| - 1]) + OptSet(ms[|ms| - 1].name)
  {
    var init := ms[..|ms| - 1];
    forall x | x in MappingNames(ms) ensures x in MappingNames(init) + OptSet(ms[|ms| - 1].name) {
      var i :| 0 <= i < |ms| && Given(ms[i].name).Some? && Given(ms[i].name).value == x;
      if i < |ms| - 1 {
        assert init[i] == ms[i];
      }
    }
    forall x | x in MappingNames(init) ensures x in MappingNames(ms) {
      var i :| 0 <= i < |init| && Given(init[i].name).Some? && Given(init[i].name).value == x;
      assert ms[i] == init[i];
    }
  }

  /** One delete under `pre` for an entry whose value is not blank and not in `keep`. */
  function Gone(pre: Path, v: Option<string>, keep: set<string>): seq<Path>
  {
    if Given(v).Some? && Given(v).value !in keep then OptPath(pre, v) else []
  }

  lemma GoneKeyed(pre: Path, v: Option<string>, keep: set<string>)
    ensures forall p :: p in Gone(pre, v, keep) ==> Keyed(p, pre)
  {
    OptPathKeyed(pre, v);
  }

  lemma ReadGone(pre: Path, v: Option<string>, keep: set<string>, k: Path)
    ensures Read(Gone(pre, v, keep), k) == if k == pre then OptSet(v) - keep else {}
  {
    ReadOptPath(pre, v, k);
  }

  /**
   * `for name in prev_mappings: if name not in new_mappings`: the dict keeps each
   * name at its first occurrence, so a repeated name is deleted once.
   */
  function StaleMappings(sp: Path, prev: seq<Mapping>, cur: seq<Mapping>): seq<Path>
  {
    if prev == [] then []
    else
      var init := prev[..|prev| - 1];
      StaleMappings(sp, init, cur) + Gone(MappingKey(sp), prev[|prev| - 1].name, MappingNames(cur) + MappingNames(init))
  }

  /**
   * `for v in set(prev) - set(new)`: one delete per removed value. Python visits
   * the set difference in hash order; this model visits it in the order the
   * values first occur in the previous list.
   */
  function Removed(pre: Path, prev: seq<Option<string>>, cur: seq<Option<string>>): seq<Path>
  {
    if prev == [] then []
    else
      var init := prev[..|prev| - 1];
      Removed(pre, init, cur) + Gone(pre, prev[|prev| - 1], GivenSet(cur) + GivenSet(init))
  }

  lemma {:induction false} RemovedKeyed(pre: Path, prev: seq<Option<string>>, cur: seq<Option<string>>)
    ensures forall p :: p in Removed(pre, prev, cur) ==> Keyed(p, pre)
    decreases |prev|
  {
    if prev != [] {
      var init := prev[..|prev| - 1];
      RemovedKeyed(pre, init, cur);
      GoneKeyed(pre, prev[|prev| - 1], GivenSet(cur) + GivenSet(init));
    }
  }

  /** Reading the deletes back gives exactly the set difference of the two lists' values. */
  lemma {:induction false} ReadRemoved(pre: Path, prev: seq<Option<string>>, cur: seq<Option<string>>, k: Path)
    ensures Read(Removed(pre, prev, cur), k) == if k == pre then GivenSet(prev) - GivenSet(cur) else {}
    decreases |prev|
  {
    if prev != [] {
      var init := prev[..|prev| - 1];
      var keep := GivenSet(cur) + GivenSet(init);
      ReadRemoved(pre, init, cur, k);
      ReadGone(pre, prev[|prev| - 1], keep, k);
      ReadAppend(Removed(pre, init, cur), Gone(pre, prev[|prev| - 1], keep), k);
      GivenSetSnoc(prev);
    }
  }

  lemma DistinctSnoc(xs: seq<Path>, x: Path)
    requires NoDuplicates(xs) && x !in xs
    ensures NoDuplicates(xs + [x])
  {
    forall i, j | 0 <= i < j < |xs + [x]| ensures (xs + [x])[i] != (xs + [x])[j] {
      if j == |xs| {
        assert (xs + [x])[i] == xs[i];
      } else {
        assert (xs + [x])[i] == xs[i] && (xs + [x])[j] == xs[j];
      }
    }
  }

  /** Each removed value is deleted once, however often it occurred. */
  lemma {:induction false} RemovedDistinct(pre: Path, prev: seq<Option<string>>, cur: seq<Option<string>>)
    ensures NoDuplicates(Removed(pre, prev, cur))
    decreases |prev|
  {
    if prev != [] {
      var init := prev[..|prev| - 1];
      var keep := GivenSet(cur) + GivenSet(init);
      var before := Removed(pre, init, cur);
      var g := Gone(pre, prev[|prev| - 1], keep);
      RemovedDistinct(pre, init, cur);
      ReadRemoved(pre, init, cur, pre);
      assert Removed(pre, prev, cur) == before + g;
      if g != [] {
        var x := Given(prev[|prev| - 1]).value;
        var p := pre + [x];
        assert g == [p] && x !in GivenSet(init);
        NotReadNotIn(before, pre, p, GivenSet(init) - GivenSet(cur));
        DistinctSnoc(before, p);
      }
    }
  }

  /** A path keyed under `k` whose value is not read back under `k` is not in the batch. */
  lemma NotReadNotIn(ps: seq<Path>, k: Path, p: Path, values: set<string>)
    requires Keyed(p, k) && p[|k|] !in values
    requires Read(ps, k) == values
    ensures p !in ps
  {
    var v := p[|k|];
    assert p in ps ==> v in Read(ps, k);
  }

  lemma {:induction false} StaleMappingsKeyed(sp: Path, prev: seq<Mapping>, cur: seq<Mapping>)
    ensures forall p :: p in StaleMappings(sp, prev, cur) ==> Keyed(p, MappingKey(sp))
    decreases |prev|
  {
    if prev != [] {
      var init := prev[..|prev| - 1];
      StaleMappingsKeyed(sp, init, cur);
      GoneKeyed(MappingKey(sp), prev[|prev| - 1].name, MappingNames(cur) + MappingNames(init));
    }
  }

  /** Reading the mapping deletes back gives the names that disappeared. */
  lemma {:induction false} ReadStaleMappings(sp: Path, prev: seq<Mapping>, cur: seq<Mapping>, k: Path)
    ensures Read(StaleMappings(sp, prev, cur), k) ==
      if k == MappingKey(sp) then MappingNames(prev) - MappingNames(cur) else {}
    decreases |prev|
  {
    if prev != [] {
      var init := prev[..|prev| - 1];
      var keep := MappingNames(cur) + MappingNames(init);
      ReadStaleMappings(sp, init, cur, k);
      ReadGone(MappingKey(sp), prev[|prev| - 1].name, keep, k);
      ReadAppend(StaleMappings(sp, init, cur), Gone(MappingKey(sp), prev[|prev| - 1].name, keep), k);
      MappingNamesSnoc(prev);
    }
  }

  /** The authoritative flag's delete, when the edit switches it off. */
  function AuthoritativeOff(shared: string, s: Scope, prev: Scope): seq<Path>
  {
    if prev.authoritative && !s.authoritative then [ScopeBase(shared) + ["authoritative"]] else []
  }

  /** The deletes of an edit that keeps the shared network and subnet. */
  function SameScopeDeletes(shared: string, subnet: string, s: Scope, prev: Scope): seq<Path>
  {
    var sp := SubnetPath(shared, subnet);
    AuthoritativeOff(shared, s, prev)
    + StaleMappings(sp, prev.staticMappings, s.staticMappings)
    + Removed(ExcludeKey(sp), prev.excludes, s.excludes)
    + Removed(NameServerKey(sp), prev.dnsServers, s.dnsServers)
    + Removed(SearchKey(sp), prev.searchDomains, s.searchDomains)
  }

  /** What an in-place edit deletes under each key, before the keys are told apart. */
  lemma ReadSameScope(shared: string, subnet: string, s: Scope, prev: Scope, k: Path)
    requires |k| > 5
    ensures var sp := SubnetPath(shared, subnet);
      Read(SameScopeDeletes(shared, subnet, s, prev), k) ==
        (if k == MappingKey(sp) then MappingNames(prev.staticMappings) - MappingNames(s.staticMappings) else {})
        + (if k == ExcludeKey(sp) then GivenSet(prev.excludes) - GivenSet(s.excludes) else {})
        + (if k == NameServerKey(sp) then GivenSet(prev.dnsServers) - GivenSet(s.dnsServers) else {})
        + (if k == SearchKey(sp) then GivenSet(prev.searchDomains) - GivenSet(s.searchDomains) else {})
  {
    var sp := SubnetPath(shared, subnet);
    var a0 := AuthoritativeOff(shared, s, prev);
    var a1 := StaleMappings(sp, prev.staticMappings, s.staticMappings);
    var a2 := Removed(ExcludeKey(sp), prev.excludes, s.excludes);
    var a3 := Removed(NameServerKey(sp), prev.dnsServers, s.dnsServers);
    var a4 := Removed(SearchKey(sp), prev.searchDomains, s.searchDomains);
    assert SameScopeDeletes(shared, subnet, s, prev) == a0 + a1 + a2 + a3 + a4;
    assert Read(a0, k) == {} by {
      forall p | p in a0 ensures !Keyed(p, k) {
        assert |p| == 5;
      }
    }
    ReadStaleMappings(sp, prev.staticMappings, s.staticMappings, k);
    ReadRemoved(ExcludeKey(sp), prev.excludes, s.excludes, k);
    ReadRemoved(NameServerKey(sp), prev.dnsServers, s.dnsServers, k);
    ReadRemoved(SearchKey(sp), prev.searchDomains, s.searchDomains, k);
    ReadAppend(a0, a1, k);
    ReadAppend(a0 + a1, a2, k);
    ReadAppend(a0 + a1 + a2, a3, k);
    ReadAppend(a0 + a1 + a2 + a3, a4, k);
  }

  /**
   * _build_delete_commands. When the previous scope names a different shared
   * network or subnet, the old subnet is deleted whole and nothing else is;
   * otherwise the removed flags, mappings and values are deleted one by one.
   */
  function DeleteCommands(s: Scope, prev: Option<Scope>): seq<Path>
    requires Given(s.sharedNetwork).Some? && Given(s.subnet).Some?
  {
    if prev.None? then []
    else if IdentityChanged(s, prev.value) then
      [SubnetPath(Given(prev.value.sharedNetwork).value, Given(prev.value.subnet).value)]
    else SameScopeDeletes(Given(s.sharedNetwork).value, Given(s.subnet).value, s, prev.value)
  }

  /** Whether an edit moves the scope away from a previous shared network and subnet that were both given. */
  predicate IdentityChanged(s: Scope, prev: Scope)
  {
    Given(prev.sharedNetwork).Some? && Given(prev.subnet).Some?
    && (Given(prev.sharedNetwork) != Given(s.sharedNetwork) || Given(prev.subnet) != Given(s.subnet))
  }

  /** A moved scope: the old subnet is deleted whole, as one path, and nothing else is. */
  lemma IdentityChangeDeletesOldSubnet(s: Scope, prev: Scope)
    requires Given(s.sharedNetwork).Some? && Given(s.subnet).Some?
    requires IdentityChanged(s, prev)
    ensures DeleteCommands(s, Some(prev)) == [SubnetPath(Given(prev.sharedNetwork).value, Given(prev.subnet).value)]
  {
  }

  /** An edit in place deletes the per-item differences under the new shared network and subnet. */
  lemma DeleteCommandsInPlace(s: Scope, prev: Scope, shared: string, subnet: string)
    requires Given(s.sharedNetwork) == Some(shared) && Given(s.subnet) == Some(subnet)
    requires !IdentityChanged(s, prev)
    ensures DeleteCommands(s, Some(prev)) == SameScopeDeletes(shared, subnet, s, prev)
  {
  }

  // The delete batch, built the way the view builds it

  /** The removed values of one list, appended in order of first occurrence. */
  method AppendRemoved(commands: seq<Path>, pre: Path, prev: seq<Option<string>>, cur: seq<Option<string>>)
    returns (r: seq<Path>)
    ensures r == commands + Removed(pre, prev, cur)
  {
    var keep := GivenSet(cur);
    var seen: set<string> := {};
    r := commands;
    var i := 0;
    while i < |prev|
      invariant 0 <= i <= |prev|
      invariant seen == GivenSet(prev[..i])
      invariant r == commands + Removed(pre, prev[..i], cur)
    {
      assert prev[..i + 1][..i] == prev[..i];
      GivenSetSnoc(prev[..i + 1]);
      assert Removed(pre, prev[..i + 1], cur) == Removed(pre, prev[..i], cur) + Gone(pre, prev[i], keep + seen);
      AppendAssoc(commands, Removed(pre, prev[..i], cur), Gone(pre, prev[i], keep + seen));
      r := r + Gone(pre, prev[i], keep + seen);
      seen := seen + OptSet(prev[i]);
      i := i + 1;
    }
    assert prev[..|prev|] == prev;
  }

  /** The mappings whose names disappeared, appended in order of first occurrence. */
  method AppendStaleMappings(commands: seq<Path>, sp: Path, prev: seq<Mapping>, cur: seq<Mapping>)
    returns (r: seq<Path>)
    ensures r == commands + StaleMappings(sp, prev, cur)
  {
    var keep := MappingNames(cur);
    var seen: set<string> := {};
    r := commands;
    var i := 0;
    while i < |prev|
      invariant 0 <= i <= |prev|
      invariant seen == MappingNames(prev[..i])
      invariant r == commands + StaleMappings(sp, prev[..i], cur)
    {
      assert prev[..i + 1][..i] == prev[..i];
      MappingNamesSnoc(prev[..i + 1]);
      assert StaleMappings(sp, prev[..i + 1], cur)
        == StaleMappings(sp, prev[..i], cur) + Gone(MappingKey(sp), prev[i].name, keep + seen);
      AppendAssoc(commands, StaleMappings(sp, prev[..i], cur), Gone(MappingKey(sp), prev[i].name, keep + seen));
      r := r + Gone(MappingKey(sp), prev[i].name, keep + seen);
      seen := seen + OptSet(prev[i].name);
      i := i + 1;
    }
    assert prev[..|prev|] == prev;
  }

  /** The item-by-item deletes of an edit in place. */
  method BuildSameScopeDeletes(shared: string, subnet: string, s: Scope, prev: Scope) returns (r: seq<Path>)
    ensures r == SameScopeDeletes(shared, subnet, s, prev)
  {
    var sp := SubnetPath(shared, subnet);
    r := [];
    if prev.authoritative && !s.authoritative {
      r := [ScopeBase(shared) + ["authoritative"]];
    }
    r := AppendStaleMappings(r, sp, prev.staticMappings, s.staticMappings);
    r := AppendRemoved(r, ExcludeKey(sp), prev.excludes, s.excludes);
    r := AppendRemoved(r, NameServerKey(sp), prev.dnsServers, s.dnsServers);
    r := AppendRemoved(r, SearchKey(sp), prev.searchDomains, s.searchDomains);
  }

  /** _build_delete_commands, step by step. */
  method BuildDeleteCommands(s: Scope, prev: Option<Scope>) returns (r: seq<Path>)
    requires Given(s.sharedNetwork).Some? && Given(s.subnet).Some?
    ensures r == DeleteCommands(s, prev)
  {
    if prev.None? {
      return [];
    }
    var shared, subnet := Given(s.sharedNetwork).value, Given(s.subnet).value;
    var ps, pn := Given(prev.value.sharedNetwork), Given(prev.value.subnet);
    if ps.Some? && pn.Some? && (ps.value != shared || pn.value != subnet) {
      IdentityChangeDeletesOldSubnet(s, prev.value);
      return [SubnetPath(ps.value, pn.value)];
    }
    DeleteCommandsInPlace(s, prev.value, shared, subnet);
    r := BuildSameScopeDeletes(shared, subnet, s, prev.value);
  }

  // ---------------------------------------------------------------------
  // What an edit in place does to the device

  /** A key-value path is in a batch exactly when its value reads back under the key. */
  lemma KeyedIn(ps: seq<Path>, k: Path, v: string)
    ensures k + [v] in ps <==> v in Read(ps, k)
  {
    var p := k + [v];
    assert p[..|k|] == k;
    if v in Read(ps, k) {
      var q :| q in ps && Keyed(q, k) && q[|k|] == v;
      KeyedUnique(q, k, v);
    }
  }

  /** Every in-place delete is the authoritative flag or a single item under one of the four list keys. */
  lemma SameScopeDeletesShape(shared: string, subnet: string, s: Scope, prev: Scope)
    ensures var sp := SubnetPath(shared, subnet);
      forall d :: d in SameScopeDeletes(shared, subnet, s, prev) ==>
        || d == ScopeBase(shared) + ["authoritative"]
        || Keyed(d, MappingKey(sp)) || Keyed(d, ExcludeKey(sp))
        || Keyed(d, NameServerKey(sp)) || Keyed(d, SearchKey(sp))
  {
    var sp := SubnetPath(shared, subnet);
    StaleMappingsKeyed(sp, prev.staticMappings, s.staticMappings);
    RemovedKeyed(ExcludeKey(sp), prev.excludes, s.excludes);
    RemovedKeyed(NameServerKey(sp), prev.dnsServers, s.dnsServers);
    RemovedKeyed(SearchKey(sp), prev.searchDomains, s.searchDomains);
  }

  /**
   * No in-place delete reaches an item of a list key other than its own: a
   * delete that covers a name server, search domain or excluded address is
   * that very item.
   */
  lemma InPlaceDeletesExact(shared: string, subnet: string, s: Scope, prev: Scope, k: Path, p: Path, d: Path)
    requires var sp := SubnetPath(shared, subnet);
      k == NameServerKey(sp) || k == SearchKey(sp) || k == ExcludeKey(sp)
    requires Keyed(p, k)
    requires d in SameScopeDeletes(shared, subnet, s, prev) && HasPrefix(p, d)
    ensures d == p
  {
    var sp := SubnetPath(shared, subnet);
    SameScopeDeletesShape(shared, subnet, s, prev);
    assert p[..|k|] == k;
    assert p[..|d|] == d;
    assert forall i :: 0 <= i < |d| ==> p[i] == d[i];
    assert p[4] == "subnet" by { assert p[4] == k[4]; }
    assert p[6] == k[6];
    if |k| == 8 {
      assert p[7] == k[7];
    }
    var auth := ScopeBase(shared) + ["authoritative"];
    assert |auth| == 5 && auth[4] == "authoritative";
    assert MappingKey(sp)[6] == "static-mapping" && ExcludeKey(sp)[6] == "exclude";
    assert NameServerKey(sp)[7] == "name-server" && SearchKey(sp)[7] == "domain-search";
    assert p[..|d|] == d;
  }

  /**
   * The device after the in-place deletes and then the full set batch: an item
   * under a list key is there exactly when the new batch sets it, or it was
   * there before and no delete of the batch covers it.
   */
  lemma InPlaceUpdateAt(store: Store, shared: string, subnet: string, s: Scope, prev: Scope, k: Path, v: string)
    requires var sp := SubnetPath(shared, subnet);
      k == NameServerKey(sp) || k == SearchKey(sp) || k == ExcludeKey(sp)
    ensures var ds := SameScopeDeletes(shared, subnet, s, prev); var ss := ScopeCommands(shared, subnet, s);
      k + [v] in Run(store, Deletes(ds) + Sets(ss))
      <==> v in Read(ss, k) || (k + [v] in store && v !in Read(ds, k))
  {
    var ds := SameScopeDeletes(shared, subnet, s, prev);
    var ss := ScopeCommands(shared, subnet, s);
    var p := k + [v];
    assert Keyed(p, k) by { assert p[..|k|] == k; }
    forall d | d in ds && HasPrefix(p, d) ensures d == p {
      InPlaceDeletesExact(shared, subnet, s, prev, k, p, d);
    }
    RunExactDeletes(store, ds, ss, k, v);
  }

  /**
   * When the only delete at or above a value path is the path itself, the path
   * is there after deletes-then-sets exactly when the sets place it, or it was
   * there and is not deleted.
   */
  lemma RunExactDeletes(store: Store, ds: seq<Path>, ss: seq<Path>, k: Path, v: string)
    requires forall d :: d in ds && HasPrefix(k + [v], d) ==> d == k + [v]
    ensures k + [v] in Run(store, Deletes(ds) + Sets(ss)) <==> v in Read(ss, k) || (k + [v] in store && v !in Read(ds, k))
  {
    var p := k + [v];
    DeletesThenSets(store, ds, ss);
    KeyedIn(ss, k, v);
    KeyedIn(ds, k, v);
    if p in ds {
      assert HasPrefix(p, p);
    }
  }

  /**
   * An edit in place keeps each list of the scope in step with the payload:
   * afterwards a name server, search domain or excluded address is configured
   * exactly when the new list holds it, or it was configured before although
   * the previous list did not hold it (configuration made outside the form).
   */
  lemma InPlaceListUpdate(store: Store, shared: string, subnet: string, s: Scope, prev: Scope, v: string)
    ensures var ds := SameScopeDeletes(shared, subnet, s, prev); var ss := ScopeCommands(shared, subnet, s);
      var after := Run(store, Deletes(ds) + Sets(ss)); var sp := SubnetPath(shared, subnet);
      && (NameServerKey(sp) + [v] in after
          <==> v in GivenSet(s.dnsServers) || (NameServerKey(sp) + [v] in store && v !in GivenSet(prev.dnsServers)))
      && (SearchKey(sp) + [v] in after
          <==> v in GivenSet(s.searchDomains) || (SearchKey(sp) + [v] in store && v !in GivenSet(prev.searchDomains)))
      && (ExcludeKey(sp) + [v] in after
          <==> v in GivenSet(s.excludes) || (ExcludeKey(sp) + [v] in store && v !in GivenSet(prev.excludes)))
  {
    var sp := SubnetPath(shared, subnet);
    var ss := ScopeCommands(shared, subnet, s);
    assert |sp| == 6;
    ExpectedListKeys(sp, s);
    forall k | k == NameServerKey(sp) || k == SearchKey(sp) || k == ExcludeKey(sp)
      ensures Read(ss, k) == Expected(sp, s, k)
    {
      ReadScopeKey(shared, subnet, s, k);
      ReadSubnetCommands(sp, s, k);
    }
    InPlaceUpdateAt(store, shared, subnet, s, prev, NameServerKey(sp), v);
    InPlaceUpdateAt(store, shared, subnet, s, prev, SearchKey(sp), v);
    InPlaceUpdateAt(store, shared, subnet, s, prev, ExcludeKey(sp), v);
    ReadSameScope(shared, subnet, s, prev, NameServerKey(sp));
    ReadSameScope(shared, subnet, s, prev, SearchKey(sp));
    ReadSameScope(shared, subnet, s, prev, ExcludeKey(sp));
    assert NameServerKey(sp) != SearchKey(sp) by { assert NameServerKey(sp)[7] != SearchKey(sp)[7]; }
    assert ExcludeKey(sp) != MappingKey(sp) by { assert ExcludeKey(sp)[6] != MappingKey(sp)[6]; }
  }

  // ---------------------------------------------------------------------
  // The authoritative flag across an edit

  /**
   * The device's authoritative flag after a batch of deletes and the set batch,
   * when the only delete that can reach the flag is the flag itself and the
   * batch deletes it exactly when the edit switches it off.
   */
  lemma AuthoritativeAfter(store: Store, shared: string, subnet: string, s: Scope, prev: Scope, ds: seq<Path>)
    requires forall d :: d in ds ==> d == ScopeBase(shared) + ["authoritative"] || |d| > 5
    requires ScopeBase(shared) + ["authoritative"] in ds <==> prev.authoritative && !s.authoritative
    ensures ScopeBase(shared) + ["authoritative"] in Run(store, Deletes(ds) + Sets(ScopeCommands(shared, subnet, s)))
      <==> s.authoritative || (ScopeBase(shared) + ["authoritative"] in store && !prev.authoritative)
  {
    var p := ScopeBase(shared) + ["authoritative"];
    var sp := SubnetPath(shared, subnet);
    var ss := ScopeCommands(shared, subnet, s);
    var auth: seq<Path> := if s.authoritative then [p] else [];
    assert p in ss <==> s.authoritative by {
      assert ss == auth + SubnetCommands(sp, s);
      SubnetCommandsBelow(sp, s);
      assert p !in SubnetCommands(sp, s) by { assert |p| == 5; }
    }
    assert (forall d :: d in ds ==> !HasPrefix(p, d)) <==> p !in ds by {
      assert HasPrefix(p, p);
    }
    DeletesThenSets(store, ds, ss);
    assert p in Without(store, ds) <==> p in store && p !in ds;
  }

  /** An in-place edit: only the flag's own delete reaches it. */
  lemma SameScopeDeletesReachFlag(shared: string, subnet: string, s: Scope, prev: Scope)
    ensures var ds := SameScopeDeletes(shared, subnet, s, prev);
      && (forall d :: d in ds ==> d == ScopeBase(shared) + ["authoritative"] || |d| > 5)
      && (ScopeBase(shared) + ["authoritative"] in ds <==> prev.authoritative && !s.authoritative)
  {
    var sp := SubnetPath(shared, subnet);
    var p := ScopeBase(shared) + ["authoritative"];
    var a0 := AuthoritativeOff(shared, s, prev);
    var a1 := StaleMappings(sp, prev.staticMappings, s.staticMappings);
    var a2 := Removed(ExcludeKey(sp), prev.excludes, s.excludes);
    var a3 := Removed(NameServerKey(sp), prev.dnsServers, s.dnsServers);
    var a4 := Removed(SearchKey(sp), prev.searchDomains, s.searchDomains);
    assert SameScopeDeletes(shared, subnet, s, prev) == a0 + a1 + a2 + a3 + a4;
    StaleMappingsKeyed(sp, prev.staticMappings, s.staticMappings);
    RemovedKeyed(ExcludeKey(sp), prev.excludes, s.excludes);
    RemovedKeyed(NameServerKey(sp), prev.dnsServers, s.dnsServers);
    RemovedKeyed(SearchKey(sp), prev.searchDomains, s.searchDomains);
    assert forall d :: d in a1 || d in a2 || d in a3 || d in a4 ==> |d| > 7;
    assert p !in a1 && p !in a2 && p !in a3 && p !in a4 by { assert |p| == 5; }
    assert forall d :: d in a0 ==> d == p;
  }

  /** A payload naming its shared network and subnet yields that scope's set batch. */
  lemma SetCommandsOfScope(s: Scope, shared: string, subnet: string)
    requires Given(s.sharedNetwork) == Some(shared) && Given(s.subnet) == Some(subnet)
    ensures SetCommands(s) == Ok(ScopeCommands(shared, subnet, s))
  {
  }

  /** Deleting a whole subnet leaves its shared network's authoritative flag where it was. */
  lemma SubnetDeleteKeepsFlag(store: Store, shared: string, oldSubnet: string, subnet: string, s: Scope)
    requires ScopeBase(shared) + ["authoritative"] in store
    ensures ScopeBase(shared) + ["authoritative"]
      in Run(store, Deletes([SubnetPath(shared, oldSubnet)]) + Sets(ScopeCommands(shared, subnet, s)))
  {
    var p := ScopeBase(shared) + ["authoritative"];
    var ds := [SubnetPath(shared, oldSubnet)];
    DeletesThenSets(store, ds, ScopeCommands(shared, subnet, s));
    assert forall d :: d in ds ==> !HasPrefix(p, d) by { assert |p| == 5; }
    assert p in Without(store, ds);
  }

  /** A moved scope under the corrected batch: only the flag's own delete reaches it. */
  lemma MovedDeletesReachFlag(shared: string, subnet: string, s: Scope, prev: Scope, oldSubnet: Path)
    requires |oldSubnet| == 6
    ensures var ds := [oldSubnet] + AuthoritativeOff(shared, s, prev);
      && (forall d :: d in ds ==> d == ScopeBase(shared) + ["authoritative"] || |d| > 5)
      && (ScopeBase(shared) + ["authoritative"] in ds <==> prev.authoritative && !s.authoritative)
  {
    assert ScopeBase(shared) + ["authoritative"] != oldSubnet by { assert |ScopeBase(shared) + ["authoritative"]| == 5; }
  }
  /** The delete batch as written reaches the flag only through its own delete, which a move never emits. */
  lemma DeleteCommandsReachFlag(shared: string, subnet: string, s: Scope, prev: Scope)
    requires Given(s.sharedNetwork) == Some(shared) && Given(s.subnet) == Some(subnet)
    ensures var ds := DeleteCommands(s, Some(prev));
      && (forall d :: d in ds ==> d == ScopeBase(shared) + ["authoritative"] || |d| > 5)
      && (ScopeBase(shared) + ["authoritative"] in ds
          <==> prev.authoritative && !s.authoritative && !IdentityChanged(s, prev))
  {
    if IdentityChanged(s, prev) {
      MovedDeleteMissesFlag(shared, s, prev);
    } else {
      DeleteCommandsInPlace(s, prev, shared, subnet);
      SameScopeDeletesReachFlag(shared, subnet, s, prev);
    }
  }

  /** A move deletes only the old subnet, which lies deeper than any flag. */
  lemma MovedDeleteMissesFlag(shared: string, s: Scope, prev: Scope)
    requires Given(s.sharedNetwork).Some? && Given(s.subnet).Some?
    requires IdentityChanged(s, prev)
    ensures forall d :: d in DeleteCommands(s, Some(prev)) ==> |d| > 5
  {
    IdentityChangeDeletesOldSubnet(s, prev);
  }

  /** The corrected delete batch reaches the flag only through its own delete, emitted whenever the edit switches it off. */
  lemma DeleteCommandsFixedReachFlag(shared: string, subnet: string, s: Scope, prev: Scope)
    requires Given(s.sharedNetwork) == Some(shared) && Given(s.subnet) == Some(subnet)
    ensures var ds := DeleteCommandsFixed(s, Some(prev));
      && (forall d :: d in ds ==> d == ScopeBase(shared) + ["authoritative"] || |d| > 5)
      && (ScopeBase(shared) + ["authoritative"] in ds <==> prev.authoritative && !s.authoritative)
  {
    if IdentityChanged(s, prev) {
      var oldSubnet := SubnetPath(Given(prev.sharedNetwork).value, Given(prev.subnet).value);
      assert DeleteCommandsFixed(s, Some(prev)) == [oldSubnet] + AuthoritativeOff(shared, s, prev);
      MovedDeletesReachFlag(shared, subnet, s, prev, oldSubnet);
    } else {
      DeleteCommandsInPlace(s, prev, shared, subnet);
      assert DeleteCommandsFixed(s, Some(prev)) == SameScopeDeletes(shared, subnet, s, prev);
      SameScopeDeletesReachFlag(shared, subnet, s, prev);
    }
  }



  /**
   * As written, a subnet change inside the same shared network deletes only the
   * old subnet: an authoritative flag the edit switches off stays on the device.
   */
  lemma AuthoritativeSurvivesSubnetChange(store: Store, s: Scope, prev: Scope, shared: string, subnet: string)
    requires Given(s.sharedNetwork) == Some(shared) && Given(s.subnet) == Some(subnet)
    requires Given(prev.sharedNetwork) == Some(shared) && Given(prev.subnet).Some? && Given(prev.subnet) != Some(subnet)
    requires prev.authoritative && !s.authoritative
    requires ScopeBase(shared) + ["authoritative"] in store
    ensures SetCommands(s).Ok?
    ensures ScopeBase(shared) + ["authoritative"]
      in Run(store, Deletes(DeleteCommands(s, Some(prev))) + Sets(SetCommands(s).value))
  {
    IdentityChangeDeletesOldSubnet(s, prev);
    SetCommandsOfScope(s, shared, subnet);
    SubnetDeleteKeepsFlag(store, shared, Given(prev.subnet).value, subnet, s);
  }

  /**
   * The delete batch with the flag handled on every path: a moved scope also
   * drops the authoritative flag of its shared network when the edit switches it off.
   */
  function DeleteCommandsFixed(s: Scope, prev: Option<Scope>): seq<Path>
    requires Given(s.sharedNetwork).Some? && Given(s.subnet).Some?
  {
    if prev.None? then []
    else if IdentityChanged(s, prev.value) then
      [SubnetPath(Given(prev.value.sharedNetwork).value, Given(prev.value.subnet).value)]
      + AuthoritativeOff(Given(s.sharedNetwork).value, s, prev.value)
    else SameScopeDeletes(Given(s.sharedNetwork).value, Given(s.subnet).value, s, prev.value)
  }

  /** The corrected batch: after any edit the flag is on exactly when the payload asks for it or nobody tracked it. */
  lemma AuthoritativeAfterUpdateFixed(store: Store, s: Scope, prev: Scope, shared: string, subnet: string)
    requires Given(s.sharedNetwork) == Some(shared) && Given(s.subnet) == Some(subnet)
    ensures SetCommands(s).Ok?
    ensures ScopeBase(shared) + ["authoritative"]
      in Run(store, Deletes(DeleteCommandsFixed(s, Some(prev))) + Sets(SetCommands(s).value))
      <==> s.authoritative || (ScopeBase(shared) + ["authoritative"] in store && !prev.authoritative)
  {
    SetCommandsOfScope(s, shared, subnet);
    if IdentityChanged(s, prev) {
      var oldSubnet := SubnetPath(Given(prev.sharedNetwork).value, Given(prev.subnet).value);
      assert DeleteCommandsFixed(s, Some(prev)) == [oldSubnet] + AuthoritativeOff(shared, s, prev);
      MovedDeletesReachFlag(shared, subnet, s, prev, oldSubnet);
      AuthoritativeAfter(store, shared, subnet, s, prev, [oldSubnet] + AuthoritativeOff(shared, s, prev));
    } else {
      DeleteCommandsInPlace(s, prev, shared, subnet);
      SameScopeDeletesReachFlag(shared, subnet, s, prev);
      AuthoritativeAfter(store, shared, subnet, s, prev, SameScopeDeletes(shared, subnet, s, prev));
    }
  }

  // ---------------------------------------------------------------------
  // Nothing removed, nothing deleted

  /** A list that lost no value produces no deletes. */
  lemma {:induction false} RemovedNone(pre: Path, prev: seq<Option<string>>, cur: seq<Option<string>>)
    requires GivenSet(prev) <= GivenSet(cur)
    ensures Removed(pre, prev, cur) == []
    decreases |prev|
  {
    if prev != [] {
      GivenSetSnoc(prev);
      RemovedNone(pre, prev[..|prev| - 1], cur);
    }
  }

  /** Mappings that all keep their names produce no deletes. */
  lemma {:induction false} StaleMappingsNone(sp: Path, prev: seq<Mapping>, cur: seq<Mapping>)
    requires MappingNames(prev) <= MappingNames(cur)
    ensures StaleMappings(sp, prev, cur) == []
    decreases |prev|
  {
    if prev != [] {
      MappingNamesSnoc(prev);
      StaleMappingsNone(sp, prev[..|prev| - 1], cur);
    }
  }

  /** Saving a scope unchanged deletes nothing. */
  lemma UnchangedScopeDeletesNothing(s: Scope)
    requires Given(s.sharedNetwork).Some? && Given(s.subnet).Some?
    ensures DeleteCommands(s, Some(s)) == []
  {
    var sp := SubnetPath(Given(s.sharedNetwork).value, Given(s.subnet).value);
    DeleteCommandsInPlace(s, s, Given(s.sharedNetwork).value, Given(s.subnet).value);
    StaleMappingsNone(sp, s.staticMappings, s.staticMappings);
    RemovedNone(ExcludeKey(sp), s.excludes, s.excludes);
    RemovedNone(NameServerKey(sp), s.dnsServers, s.dnsServers);
    RemovedNone(SearchKey(sp), s.searchDomains, s.searchDomains);
  }
}
