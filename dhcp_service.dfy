/**
 * The DHCP service handlers around the scope builders: the global-settings
 * builders and their diff, payload validation, the subnet-id fallback chain,
 * the create and update batches of the current views, the older copy of the
 * views (a narrower delete diff, one device call per delete) and the lease
 * filter of the lease listing.
 */
module DhcpService {
  import opened Wrappers
  import opened Text
  import opened Paths
  import opened Device
  import opened DhcpScope
  import opened DhcpUtils

  // ---------------------------------------------------------------------
  // Global settings

  function DhcpBase(): (r: Path)
    ensures |r| == 2
  {
    ["service", "dhcp-server"]
  }

  function HostfilePath(): (r: Path)
    ensures |r| == 3 && r[..2] == DhcpBase() && r[2] == "hostfile-update"
  {
    DhcpBase() + ["hostfile-update"]
  }

  function ListenKey(): (r: Path)
    ensures |r| == 3 && r[..2] == DhcpBase() && r[2] == "listen-address"
  {
    DhcpBase() + ["listen-address"]
  }

  function HaBase(): (r: Path)
    ensures |r| == 3 && r[..2] == DhcpBase() && r[2] == "high-availability"
  {
    DhcpBase() + ["high-availability"]
  }

  /** Python's `a or b` on two raw values: a missing or empty first value falls through to the second. */
  function OrRaw(a: Option<string>, b: Option<string>): Option<string>
  {
    if a.Some? && a.value != [] then a else b
  }

  /** The high-availability block: each field that is not blank, in the builder's order. */
  function HaCommands(h: Ha): seq<Path>
  {
    OptPath(HaBase() + ["mode"], h.mode)
    + OptPath(HaBase() + ["status"], h.status)
    + OptPath(HaBase() + ["source-address"], OrRaw(h.sourceAddress, h.sourceAddressAlt))
    + OptPath(HaBase() + ["remote"], OrRaw(h.remote, h.remoteAlt))
    + OptPath(HaBase() + ["name"], h.name)
  }

  /** _build_global_set_commands: hostfile-update, then the listen addresses, then high availability. */
  function GlobalSetCommands(g: Global): seq<Path>
  {
    (if g.hostfileUpdate then [HostfilePath()] else [])
    + ValuePaths(ListenKey(), g.listenAddresses)
    + (if g.ha.Some? then HaCommands(g.ha.value) else [])
  }

  /** Every high-availability path is one value under one of the block's keys. */
  lemma HaCommandsShape(h: Ha)
    ensures forall p :: p in HaCommands(h) ==> |p| == 5 && p[..3] == HaBase()
  {
    var k0, k1, k2 := HaBase() + ["mode"], HaBase() + ["status"], HaBase() + ["source-address"];
    var k3, k4 := HaBase() + ["remote"], HaBase() + ["name"];
    var p0 := OptPath(k0, h.mode);
    var p1 := OptPath(k1, h.status);
    var p2 := OptPath(k2, OrRaw(h.sourceAddress, h.sourceAddressAlt));
    var p3 := OptPath(k3, OrRaw(h.remote, h.remoteAlt));
    var p4 := OptPath(k4, h.name);
    assert HaCommands(h) == p0 + p1 + p2 + p3 + p4;
    OptPathUnder(k0, h.mode, HaBase());
    OptPathUnder(k1, h.status, HaBase());
    OptPathUnder(k2, OrRaw(h.sourceAddress, h.sourceAddressAlt), HaBase());
    OptPathUnder(k3, OrRaw(h.remote, h.remoteAlt), HaBase());
    OptPathUnder(k4, h.name, HaBase());
  }

  /** An optional value's path lies below everything its key lies below. */
  lemma OptPathUnder(k: Path, v: Option<string>, base: Path)
    requires |k| == |base| + 1 && k[..|base|] == base
    ensures forall p :: p in OptPath(k, v) ==> |p| == |k| + 1 && p[..|base|] == base
  {
    if Given(v).Some? {
      var p := k + [Given(v).value];
      assert p[..|base|] == k[..|base|];
    }
  }

  /** Every global path lies directly below service dhcp-server, on one of the three global keys. */
  lemma GlobalSetShape(g: Global)
    ensures forall p :: p in GlobalSetCommands(g) ==>
      |p| >= 3 && p[..2] == DhcpBase() && p[2] in {"hostfile-update", "listen-address", "high-availability"}
  {
    var a: seq<Path> := if g.hostfileUpdate then [HostfilePath()] else [];
    var b := ValuePaths(ListenKey(), g.listenAddresses);
    var c := if g.ha.Some? then HaCommands(g.ha.value) else [];
    assert GlobalSetCommands(g) == a + b + c;
    ValuePathsKeyed(ListenKey(), g.listenAddresses);
    if g.ha.Some? {
      HaCommandsShape(g.ha.value);
    }
    forall p | p in a + b + c
      ensures |p| >= 3 && p[..2] == DhcpBase() && p[2] in {"hostfile-update", "listen-address", "high-availability"}
    {
      if p in a {
        BelowKey(p, HostfilePath());
      } else if p in b {
        BelowKey(p, ListenKey());
      } else {
        BelowKey(p, HaBase());
      }
    }
  }

  /** A path that extends a three-element key shares the key's first two elements and its third. */
  lemma BelowKey(p: Path, key: Path)
    requires |key| == 3 && |p| >= 3 && p[..3] == key
    ensures p[..2] == key[..2] && p[2] == key[2]
  {
    assert p[..2] == p[..3][..2];
  }

  /** The global batch sets hostfile-update exactly when the settings ask for it. */
  lemma GlobalSetHostfile(g: Global)
    ensures HostfilePath() in GlobalSetCommands(g) <==> g.hostfileUpdate
  {
    var a: seq<Path> := if g.hostfileUpdate then [HostfilePath()] else [];
    var b := ValuePaths(ListenKey(), g.listenAddresses);
    var c := if g.ha.Some? then HaCommands(g.ha.value) else [];
    assert GlobalSetCommands(g) == a + b + c;
    ValuePathsKeyed(ListenKey(), g.listenAddresses);
    if g.ha.Some? {
      HaCommandsShape(g.ha.value);
    }
    assert HostfilePath() !in b && HostfilePath() !in c by {
      assert HostfilePath()[2] != ListenKey()[2];
    }
  }

  /** The global batch re-emits exactly the non-blank listen addresses. */
  lemma GlobalSetListen(g: Global)
    ensures Read(GlobalSetCommands(g), ListenKey()) == GivenSet(g.listenAddresses)
  {
    var a: seq<Path> := if g.hostfileUpdate then [HostfilePath()] else [];
    var b := ValuePaths(ListenKey(), g.listenAddresses);
    var c := if g.ha.Some? then HaCommands(g.ha.value) else [];
    ReadAppend(a, b, ListenKey());
    ReadAppend(a + b, c, ListenKey());
    ReadValuePaths(ListenKey(), g.listenAddresses, ListenKey());
    assert Read(a, ListenKey()) == {};
    if g.ha.Some? {
      HaReadsNoListen(g.ha.value);
    }
  }

  /** No high-availability path is a listen address. */
  lemma HaReadsNoListen(h: Ha)
    ensures Read(HaCommands(h), ListenKey()) == {}
  {
    HaCommandsShape(h);
    forall p | p in HaCommands(h) ensures !Keyed(p, ListenKey()) {
      assert |p| == 5;
    }
  }

  /**
   * The high-availability source address: the "source-address" spelling wins
   * whenever it is present and not empty, even when it is only blanks and so
   * adds nothing; only a missing or empty one falls through to "sourceAddress".
   */
  lemma HaSourceAddress(h: Ha)
    ensures Read(HaCommands(h), HaBase() + ["source-address"]) ==
      if h.sourceAddress.Some? && h.sourceAddress.value != [] then OptSet(h.sourceAddress) else OptSet(h.sourceAddressAlt)
  {
    var k := HaBase() + ["source-address"];
    var ks := [HaBase() + ["mode"], HaBase() + ["status"], k, HaBase() + ["remote"], HaBase() + ["name"]];
    assert forall i :: 0 <= i < 5 && i != 2 ==> ks[i] != k by {
      assert forall i :: 0 <= i < 5 ==> ks[i][3] == ["mode", "status", "source-address", "remote", "name"][i];
    }
    var p0 := OptPath(ks[0], h.mode);
    var p1 := OptPath(ks[1], h.status);
    var p2 := OptPath(ks[2], OrRaw(h.sourceAddress, h.sourceAddressAlt));
    var p3 := OptPath(ks[3], OrRaw(h.remote, h.remoteAlt));
    var p4 := OptPath(ks[4], h.name);
    assert HaCommands(h) == p0 + p1 + p2 + p3 + p4;
    ReadOptPath(ks[0], h.mode, k);
    ReadOptPath(ks[1], h.status, k);
    ReadOptPath(ks[2], OrRaw(h.sourceAddress, h.sourceAddressAlt), k);
    ReadOptPath(ks[3], OrRaw(h.remote, h.remoteAlt), k);
    ReadOptPath(ks[4], h.name, k);
    ReadAppend(p0, p1, k);
    ReadAppend(p0 + p1, p2, k);
    ReadAppend(p0 + p1 + p2, p3, k);
    ReadAppend(p0 + p1 + p2 + p3, p4, k);
  }

  /** _build_global_delete_commands: hostfile-update switched off, high availability dropped, removed listen addresses. */
  function GlobalDeleteCommands(g: Global, prev: Option<Global>): seq<Path>
  {
    if prev.None? then []
    else
      (if prev.value.hostfileUpdate && !g.hostfileUpdate then [HostfilePath()] else [])
      + (if prev.value.ha.Some? && g.ha.None? then [HaBase()] else [])
      + Removed(ListenKey(), prev.value.listenAddresses, g.listenAddresses)
  }

  lemma GlobalDeleteShape(g: Global, prev: Option<Global>)
    ensures forall p :: p in GlobalDeleteCommands(g, prev) ==>
      |p| >= 3 && p[..2] == DhcpBase() && p[2] in {"hostfile-update", "listen-address", "high-availability"}
  {
    if prev.Some? {
      var a: seq<Path> := if prev.value.hostfileUpdate && !g.hostfileUpdate then [HostfilePath()] else [];
      var b: seq<Path> := if prev.value.ha.Some? && g.ha.None? then [HaBase()] else [];
      var c := Removed(ListenKey(), prev.value.listenAddresses, g.listenAddresses);
      assert GlobalDeleteCommands(g, prev) == a + b + c;
      RemovedKeyed(ListenKey(), prev.value.listenAddresses, g.listenAddresses);
      forall p | p in a + b + c
        ensures |p| >= 3 && p[..2] == DhcpBase() && p[2] in {"hostfile-update", "listen-address", "high-availability"}
      {
        if p in c {
          assert p[..3] == ListenKey();
          assert p[..2] == p[..3][..2];
        } else if p in a {
          assert p == HostfilePath();
        } else {
          assert p == HaBase();
        }
      }
    }
  }

  /**
   * The global diff deletes exactly what the edit dropped: hostfile-update when
   * it goes from on to off, the whole high-availability block when it goes away,
   * and the listen addresses that were there and are not any more.
   */
  lemma GlobalDeleteReads(g: Global, prev: Global)
    ensures var r := GlobalDeleteCommands(g, Some(prev));
      && (HostfilePath() in r <==> prev.hostfileUpdate && !g.hostfileUpdate)
      && (HaBase() in r <==> prev.ha.Some? && g.ha.None?)
      && Read(r, ListenKey()) == GivenSet(prev.listenAddresses) - GivenSet(g.listenAddresses)
  {
    var a: seq<Path> := if prev.hostfileUpdate && !g.hostfileUpdate then [HostfilePath()] else [];
    var b: seq<Path> := if prev.ha.Some? && g.ha.None? then [HaBase()] else [];
    var c := Removed(ListenKey(), prev.listenAddresses, g.listenAddresses);
    assert GlobalDeleteCommands(g, Some(prev)) == a + b + c;
    RemovedKeyed(ListenKey(), prev.listenAddresses, g.listenAddresses);
    assert HostfilePath() !in c && HaBase() !in c && HostfilePath() != HaBase() by {
      assert HostfilePath()[2] != HaBase()[2];
      assert |HostfilePath()| == 3;
    }
    ReadRemoved(ListenKey(), prev.listenAddresses, g.listenAddresses, ListenKey());
    ReadAppend(a, b, ListenKey());
    ReadAppend(a + b, c, ListenKey());
    assert Read(a, ListenKey()) == {} && Read(b, ListenKey()) == {};
  }

  /** With no previous global settings there is nothing to delete. */
  lemma GlobalDeleteNoPrevious(g: Global)
    ensures GlobalDeleteCommands(g, None) == []
  {
  }

  // ---------------------------------------------------------------------
  // _validate_payload

  /**
   * The first complaint about a payload, or None when it is acceptable. A
   * missing or empty payload is None.
   */
  function ValidationError(d: Option<Scope>): (r: Option<string>)
    ensures d.None? ==> r == Some("Missing payload")
    ensures r.None? <==>
      && d.Some?
      && Given(d.value.sharedNetwork).Some? && Given(d.value.subnet).Some?
      && Given(d.value.defaultRouter).Some? && Given(d.value.domainName).Some? && Given(d.value.lease).Some?
      && Given(d.value.startAddress).Some? && Given(d.value.endAddress).Some?
      && GivenSet(d.value.dnsServers) != {}
  {
    if d.None? then Some("Missing payload")
    else
      var s := d.value;
      if Given(s.sharedNetwork).None? || Given(s.subnet).None? then Some("Missing required fields: sharedNetwork, subnet")
      else if Given(s.defaultRouter).None? then Some("Missing required field: defaultRouter")
      else if Given(s.domainName).None? then Some("Missing required field: domainName")
      else if Given(s.lease).None? then Some("Missing required field: lease")
      else if Given(s.startAddress).None? || Given(s.endAddress).None? then
        Some("Missing required DHCP range definition (startAddress / endAddress)")
      else if GivenSet(s.dnsServers) == {} then Some("Provide at least one DNS server")
      else Option.None
  }

  /** `any(strip_or_none(e) for e in dns)`: some entry is not blank. */
  lemma AnyDnsServer(vs: seq<Option<string>>)
    ensures GivenSet(vs) != {} <==> exists i :: 0 <= i < |vs| && Given(vs[i]).Some?
  {
    if exists i :: 0 <= i < |vs| && Given(vs[i]).Some? {
      var i :| 0 <= i < |vs| && Given(vs[i]).Some?;
      assert Given(vs[i]).value in GivenSet(vs);
    }
  }

  /**
   * An accepted payload always makes a set batch that configures a router, a
   * domain name, a lease, both ends of the range and at least one name server.
   */
  lemma AcceptedPayloadConfigures(s: Scope)
    requires ValidationError(Some(s)).None?
    ensures SetCommands(s).Ok?
    ensures var r := SetCommands(s).value; var sp := SubnetPath(Given(s.sharedNetwork).value, Given(s.subnet).value);
      && Read(r, RouterKey(sp)) != {} && Read(r, DomainKey(sp)) != {} && Read(r, LeaseKey(sp)) != {}
      && Read(r, StartKey(sp)) != {} && Read(r, StopKey(sp)) != {} && Read(r, NameServerKey(sp)) != {}
  {
    SetCommandsReadBack(s, Given(s.sharedNetwork).value, Given(s.subnet).value);
  }

  // ---------------------------------------------------------------------
  // The subnet-id fallback: `a or b or c or ...`

  /** The first value that is present and not empty; None when there is none. */
  function FirstTruthy(vs: seq<Option<string>>): (r: Option<string>)
    ensures r.Some? <==> exists i :: 0 <= i < |vs| && vs[i].Some? && vs[i].value != []
    ensures r.Some? ==> r.value != []
    ensures r.Some? ==> exists i :: (0 <= i < |vs| && vs[i] == r
      && forall j :: 0 <= j < i ==> vs[j].None? || vs[j].value == [])
  {
    if vs == [] then Option.None
    else if vs[0].Some? && vs[0].value != [] then vs[0]
    else
      var r := FirstTruthy(vs[1..]);
      assert forall i :: 1 <= i < |vs| ==> vs[i] == vs[1..][i - 1];
      if r.Some? then
        var i :| 0 <= i < |vs[1..]| && vs[1..][i] == r && forall j :: 0 <= j < i ==> vs[1..][j].None? || vs[1..][j].value == [];
        assert vs[i + 1] == r;
        r
      else r
  }

  /** The subnet id a create uses: the payload's two spellings, then the next free id the lookup offers, then the counter. */
  function CreateSubnetId(s: Scope, altId: Option<string>, nextAvailable: Option<string>, next: nat): (r: string)
    ensures r != []
  {
    var vs := [s.subnetId, altId, nextAvailable, Some(NatStr(next))];
    assert vs[3].Some? && vs[3].value != [];
    FirstTruthy(vs).value
  }

  /** An update also falls back on the scope's current id before the next free one. */
  function UpdateSubnetId(s: Scope, altId: Option<string>, current: Option<string>, nextAvailable: Option<string>, next: nat): (r: string)
    ensures r != []
  {
    var vs := [s.subnetId, altId, current, nextAvailable, Some(NatStr(next))];
    assert vs[4].Some? && vs[4].value != [];
    FirstTruthy(vs).value
  }

  /** An update without an id in the payload keeps the scope's current one. */
  lemma UpdateKeepsSubnetId(s: Scope, altId: Option<string>, current: string, nextAvailable: Option<string>, next: nat)
    requires s.subnetId.None? || s.subnetId.value == []
    requires altId.None? || altId.value == []
    requires current != []
    ensures UpdateSubnetId(s, altId, Some(current), nextAvailable, next) == current
  {
    var vs := [s.subnetId, altId, Some(current), nextAvailable, Some(NatStr(next))];
    var r := FirstTruthy(vs);
    assert vs[2].Some? && vs[2].value != [];
    var i :| 0 <= i < |vs| && vs[i] == r && forall j :: 0 <= j < i ==> vs[j].None? || vs[j].value == [];
    assert i == 2;
  }

  // ---------------------------------------------------------------------
  // The create, update and delete handlers of the current views

  /** What the scope lookup reports about an interface before an edit. */
  datatype Existing = Existing(configured: bool, scope: Scope, nextAvailable: Option<string>, global: Option<Global>)

  /** The flag that switches a shared network's DHCP service off. */
  function DisablePath(shared: string): (r: Path)
    ensures |r| == 5 && HasPrefix(r, ScopeBase(shared)) && r[4] == "disable"
  {
    ScopeBase(shared) + ["disable"]
  }

  /** The payload with the subnet id an update settles on. */
  function UpdatedScope(s: Scope, altId: Option<string>, existing: Existing, next: nat): (r: Scope)
    ensures r.subnetId.Some? && r.subnetId.value != []
    ensures r.sharedNetwork == s.sharedNetwork && r.subnet == s.subnet && r.enabled == s.enabled
    ensures r == s.(subnetId := r.subnetId)
  {
    s.(subnetId := Some(UpdateSubnetId(s, altId, existing.scope.subnetId, existing.nextAvailable, next)))
  }

  /** The payload with the subnet id a create settles on. */
  function CreatedScope(s: Scope, altId: Option<string>, existing: Existing, next: nat): (r: Scope)
    ensures r.subnetId.Some? && r.subnetId.value != []
    ensures r == s.(subnetId := r.subnetId)
  {
    s.(subnetId := Some(CreateSubnetId(s, altId, existing.nextAvailable, next)))
  }

  /**
   * update_dhcp up to the device call: the refusals, then one batch holding the
   * scope and global deletes and the disable flag's delete (when the scope stays
   * enabled) ahead of the scope and global sets and the disable flag's set (when
   * it is switched off).
   */
  function UpdateBatch(d: Option<Scope>, altId: Option<string>, g: Global, existing: Existing, next: nat): (r: Checked<seq<Op>>)
    ensures ValidationError(d).Some? ==> r == Refuse(400, ValidationError(d).value)
    ensures ValidationError(d).None? && !existing.configured ==>
      r == Refuse(400, "No DHCP configuration exists for this interface. Use create instead.")
    ensures r.Pass? <==> ValidationError(d).None? && existing.configured
    ensures r.Pass? ==> DeletesFirst(r.value) && r.value != []
  {
    if ValidationError(d).Some? then Refuse(400, ValidationError(d).value)
    else if !existing.configured then Refuse(400, "No DHCP configuration exists for this interface. Use create instead.")
    else Pass(UpdateOps(UpdatedScope(d.value, altId, existing, next), g, existing))
  }

  /**
   * The batch of a validated update around a given scope diff: the scope and
   * global deletes, then the scope and global sets, with the disable flag
   * deleted up front when the scope stays enabled and set last when it is
   * switched off.
   */
  function UpdateOpsWith(scopeDeletes: seq<Path>, s: Scope, g: Global, existing: Existing): (r: seq<Op>)
    requires Given(s.sharedNetwork).Some? && Given(s.subnet).Some?
    ensures DeletesFirst(r) && r != []
  {
    var ds := scopeDeletes + GlobalDeleteCommands(g, existing.global);
    var ss := SetCommands(s).value + GlobalSetCommands(g);
    var disable := DisablePath(Given(s.sharedNetwork).value);
    if s.enabled then
      DeletesThenSetsOrdered(ds + [disable], ss);
      Deletes(ds + [disable]) + Sets(ss)
    else
      DeletesThenSetsOrdered(ds, ss + [disable]);
      Deletes(ds) + Sets(ss + [disable])
  }

  /** The batch update_dhcp sends: its scope diff is `_build_delete_commands` as written. */
  function UpdateOps(s: Scope, g: Global, existing: Existing): (r: seq<Op>)
    requires Given(s.sharedNetwork).Some? && Given(s.subnet).Some?
    ensures DeletesFirst(r) && r != []
  {
    UpdateOpsWith(DeleteCommands(s, Some(existing.scope)), s, g, existing)
  }

  /** The same batch with the corrected scope diff, which also drops a switched-off authoritative flag on a move. */
  function UpdateOpsFixed(s: Scope, g: Global, existing: Existing): (r: seq<Op>)
    requires Given(s.sharedNetwork).Some? && Given(s.subnet).Some?
    ensures DeletesFirst(r) && r != []
  {
    UpdateOpsWith(DeleteCommandsFixed(s, Some(existing.scope)), s, g, existing)
  }

  /**
   * create_dhcp up to the device call: the refusals, then a batch of sets only,
   * the scope, then the global settings, then the disable flag when the scope
   * starts switched off.
   */
  function CreateBatch(d: Option<Scope>, altId: Option<string>, g: Global, existing: Existing, next: nat): (r: Checked<seq<Op>>)
    ensures ValidationError(d).Some? ==> r == Refuse(400, ValidationError(d).value)
    ensures ValidationError(d).None? && existing.configured ==>
      r == Refuse(400, "DHCP configuration already exists for this interface.")
    ensures r.Pass? <==> ValidationError(d).None? && !existing.configured
    ensures r.Pass? ==> forall i :: 0 <= i < |r.value| ==> r.value[i].Set?
  {
    if ValidationError(d).Some? then Refuse(400, ValidationError(d).value)
    else if existing.configured then Refuse(400, "DHCP configuration already exists for this interface.")
    else
      var s := CreatedScope(d.value, altId, existing, next);
      var disable := DisablePath(Given(s.sharedNetwork).value);
      Pass(Sets(SetCommands(s).value + GlobalSetCommands(g) + (if s.enabled then [] else [disable])))
  }

  /** The status of a create or update once its batch went out: the device's refusal is a server error. */
  function BatchStatus(ops: seq<Op>, context: string, resp: Response): (r: Checked<()>)
    ensures r.Pass? <==> ops == [] || (resp.error == [] && resp.status == 200)
    ensures r.Refuse? ==> r.code == 500 && Some(r.message) == ConfigureMultiple(ops, context, resp).message
  {
    var outcome := ConfigureMultiple(ops, context, resp);
    if outcome.ok then Pass(()) else Refuse(500, outcome.message.value)
  }

  /** No path of a scope's set batch lies at or below its shared network's disable flag. */
  lemma ScopeAvoidsDisable(shared: string, subnet: string, s: Scope)
    ensures forall p :: p in ScopeCommands(shared, subnet, s) ==> !HasPrefix(p, DisablePath(shared))
  {
    var t := DisablePath(shared);
    var sp := SubnetPath(shared, subnet);
    ScopeCommandsShape(shared, subnet, s);
    forall p | p in ScopeCommands(shared, subnet, s) ensures !HasPrefix(p, t) {
      assert |p| >= 5 && p[4] != "disable" by {
        if p != ScopeBase(shared) + ["authoritative"] {
          assert p[..6] == sp;
          assert p[4] == p[..6][4];
        }
      }
    }
  }

  /** No global path lies below a shared network. */
  lemma GlobalAvoidsDisable(g: Global, shared: string)
    ensures forall p :: p in GlobalSetCommands(g) ==> !HasPrefix(p, DisablePath(shared))
  {
    var t := DisablePath(shared);
    GlobalSetShape(g);
    forall p | p in GlobalSetCommands(g) ensures !HasPrefix(p, t) {
      assert t[2] == "shared-network-name";
      assert p[2] == p[..2 + 1][2];
    }
  }

  /** Neither the scope batch nor the global batch touches a shared network's disable flag. */
  lemma DisableNotSet(s: Scope, shared: string, subnet: string, g: Global)
    requires Given(s.sharedNetwork) == Some(shared) && Given(s.subnet) == Some(subnet)
    ensures SetCommands(s).Ok?
    ensures forall p :: p in SetCommands(s).value + GlobalSetCommands(g) ==> !HasPrefix(p, DisablePath(shared))
    ensures DisablePath(shared) !in SetCommands(s).value + GlobalSetCommands(g)
  {
    SetCommandsOfScope(s, shared, subnet);
    ScopeAvoidsDisable(shared, subnet, s);
    GlobalAvoidsDisable(g, shared);
    NoneBelow(ScopeCommands(shared, subnet, s), GlobalSetCommands(g), DisablePath(shared));
  }

  /** Two batches with nothing at or below `t` join into one with nothing at or below it. */
  lemma NoneBelow(a: seq<Path>, b: seq<Path>, t: Path)
    requires forall p :: p in a ==> !HasPrefix(p, t)
    requires forall p :: p in b ==> !HasPrefix(p, t)
    ensures forall p :: p in a + b ==> !HasPrefix(p, t)
    ensures t !in a + b
  {
    assert HasPrefix(t, t);
  }

  /**
   * A batch that deletes a flag ahead of its sets leaves it off; one that sets
   * it last leaves it on; either way every other set path is present afterwards.
   */
  lemma ToggleBatch(store: Store, ds: seq<Path>, ss: seq<Path>, t: Path, on: bool)
    requires t !in ss
    ensures var ops := if on then Deletes(ds + [t]) + Sets(ss) else Deletes(ds) + Sets(ss + [t]);
      && (t in Run(store, ops) <==> !on)
      && forall p :: p in ss ==> p in Run(store, ops)
  {
    assert HasPrefix(t, t);
    if on {
      DeletesThenSets(store, ds + [t], ss);
    } else {
      DeletesThenSets(store, ds, ss + [t]);
    }
  }

  /**
   * Any path the toggle does not reach: on afterwards exactly when the batch sets
   * it, or it was there and no delete lies above it.
   */
  lemma ToggleReach(store: Store, ds: seq<Path>, ss: seq<Path>, t: Path, p: Path, on: bool)
    requires !HasPrefix(p, t)
    ensures var ops := if on then Deletes(ds + [t]) + Sets(ss) else Deletes(ds) + Sets(ss + [t]);
      p in Run(store, ops) <==> p in ss || (p in store && forall d :: d in ds ==> !HasPrefix(p, d))
  {
    assert HasPrefix(p, p);
    if on {
      DeletesThenSets(store, ds + [t], ss);
    } else {
      DeletesThenSets(store, ds, ss + [t]);
    }
  }

  /** Adding a batch of sets, one of them possibly the flag. */
  lemma AddBatch(store: Store, ss: seq<Path>, t: Path, on: bool)
    requires t !in ss
    ensures var after := Run(store, Sets(ss + (if on then [] else [t])));
      && store <= after
      && (forall p :: p in ss ==> p in after)
      && (t in after <==> !on || t in store)
  {
    var all := ss + (if on then [] else [t]);
    RunSets(store, all);
    assert t in all <==> !on;
  }

  /** The update batch, spelled out for the lemmas about its effect. */
  lemma UpdateBatchValue(d: Option<Scope>, altId: Option<string>, g: Global, existing: Existing, next: nat)
    requires UpdateBatch(d, altId, g, existing, next).Pass?
    ensures ValidationError(d).None? && d.Some? && Given(d.value.sharedNetwork).Some? && Given(d.value.subnet).Some?
    ensures UpdateBatch(d, altId, g, existing, next).value == UpdateOps(UpdatedScope(d.value, altId, existing, next), g, existing)
  {
  }

  /**
   * A successful update leaves the shared network's disable flag on exactly when
   * the payload switches the scope off, and every path of the desired scope and
   * global settings present, whatever the deletes removed.
   */
  lemma UpdateEffect(store: Store, d: Option<Scope>, altId: Option<string>, g: Global, existing: Existing, next: nat)
    requires UpdateBatch(d, altId, g, existing, next).Pass?
    ensures var s := UpdatedScope(d.value, altId, existing, next);
      var after := Run(store, UpdateBatch(d, altId, g, existing, next).value);
      && SetCommands(s).Ok?
      && (DisablePath(Given(s.sharedNetwork).value) in after <==> !s.enabled)
      && forall p :: p in SetCommands(s).value + GlobalSetCommands(g) ==> p in after
  {
    var s := UpdatedScope(d.value, altId, existing, next);
    var shared := Given(s.sharedNetwork).value;
    var ds := DeleteCommands(s, Some(existing.scope)) + GlobalDeleteCommands(g, existing.global);
    DisableNotSet(s, shared, Given(s.subnet).value, g);
    UpdateBatchValue(d, altId, g, existing, next);
    ToggleBatch(store, ds, SetCommands(s).value + GlobalSetCommands(g), DisablePath(shared), s.enabled);
  }

  /** The scope and global set batch of an update sets the authoritative flag exactly when the payload asks for it. */
  lemma UpdateSetsFlag(s: Scope, g: Global, shared: string, subnet: string)
    requires Given(s.sharedNetwork) == Some(shared) && Given(s.subnet) == Some(subnet)
    ensures SetCommands(s).Ok?
    ensures ScopeBase(shared) + ["authoritative"] in SetCommands(s).value + GlobalSetCommands(g) <==> s.authoritative
  {
    var p := ScopeBase(shared) + ["authoritative"];
    var sc := ScopeCommands(shared, subnet, s);
    var gs := GlobalSetCommands(g);
    SetCommandsOfScope(s, shared, subnet);
    ScopeCommandsFlag(shared, subnet, s);
    FlagNotGlobalSet(g, shared);
    assert p in sc + gs <==> p in sc || p in gs;
  }

  /** The scope's own set batch holds the authoritative flag exactly when the scope asks for it. */
  lemma ScopeCommandsFlag(shared: string, subnet: string, s: Scope)
    ensures ScopeBase(shared) + ["authoritative"] in ScopeCommands(shared, subnet, s) <==> s.authoritative
  {
    var p := ScopeBase(shared) + ["authoritative"];
    var sp := SubnetPath(shared, subnet);
    var auth: seq<Path> := if s.authoritative then [p] else [];
    assert ScopeCommands(shared, subnet, s) == auth + SubnetCommands(sp, s);
    SubnetCommandsBelow(sp, s);
    assert p !in SubnetCommands(sp, s) by { assert |p| == 5; }
  }

  /** No global path is a shared network's authoritative flag. */
  lemma FlagNotGlobalSet(g: Global, shared: string)
    ensures ScopeBase(shared) + ["authoritative"] !in GlobalSetCommands(g)
  {
    var p := ScopeBase(shared) + ["authoritative"];
    GlobalSetShape(g);
    assert p[2] == "shared-network-name";
  }

  /**
   * The authoritative flag after an update batch whose scope diff deletes the
   * flag itself or only paths deeper than it: on exactly when the payload asks
   * for it, or it was on and the diff does not delete it.
   */
  lemma UpdateFlagWith(store: Store, scopeDeletes: seq<Path>, s: Scope, g: Global, existing: Existing,
                       shared: string, subnet: string)
    requires Given(s.sharedNetwork) == Some(shared) && Given(s.subnet) == Some(subnet)
    requires forall d :: d in scopeDeletes ==> d == ScopeBase(shared) + ["authoritative"] || |d| > 5
    ensures var p := ScopeBase(shared) + ["authoritative"];
      p in Run(store, UpdateOpsWith(scopeDeletes, s, g, existing)) <==> s.authoritative || (p in store && p !in scopeDeletes)
  {
    var disable := DisablePath(shared);
    var ds := scopeDeletes + GlobalDeleteCommands(g, existing.global);
    SetCommandsOfScope(s, shared, subnet);
    var ss := SetCommands(s).value + GlobalSetCommands(g);
    assert UpdateOpsWith(scopeDeletes, s, g, existing)
      == if s.enabled then Deletes(ds + [disable]) + Sets(ss) else Deletes(ds) + Sets(ss + [disable]);
    FlagAfterToggle(store, scopeDeletes, s, g, existing, shared, subnet);
  }

  /** UpdateFlagWith on the toggled batch written out. */
  lemma FlagAfterToggle(store: Store, scopeDeletes: seq<Path>, s: Scope, g: Global, existing: Existing,
                        shared: string, subnet: string)
    requires Given(s.sharedNetwork) == Some(shared) && Given(s.subnet) == Some(subnet)
    requires forall d :: d in scopeDeletes ==> d == ScopeBase(shared) + ["authoritative"] || |d| > 5
    ensures SetCommands(s).Ok?
    ensures var p := ScopeBase(shared) + ["authoritative"];
      var disable := DisablePath(shared);
      var ds := scopeDeletes + GlobalDeleteCommands(g, existing.global);
      var ss := SetCommands(s).value + GlobalSetCommands(g);
      var ops := if s.enabled then Deletes(ds + [disable]) + Sets(ss) else Deletes(ds) + Sets(ss + [disable]);
      p in Run(store, ops) <==> s.authoritative || (p in store && p !in scopeDeletes)
  {
    UpdateSetsFlag(s, g, shared, subnet);
    FlagMissesGlobalDeletes(g, existing.global, shared);
    FlagToggle(store, scopeDeletes, GlobalDeleteCommands(g, existing.global), SetCommands(s).value + GlobalSetCommands(g),
               shared, s.enabled, s.authoritative);
  }

  /** No global delete reaches a shared network's authoritative flag. */
  lemma FlagMissesGlobalDeletes(g: Global, prev: Option<Global>, shared: string)
    ensures forall d :: d in GlobalDeleteCommands(g, prev) ==> !HasPrefix(ScopeBase(shared) + ["authoritative"], d)
  {
    GlobalDeletesMiss(g, prev, ScopeBase(shared) + ["authoritative"]);
  }



  /**
   * A toggled batch whose sets hold the flag exactly when asked, and whose deletes
   * reach it only through the diff's own delete of it.
   */
  lemma FlagToggle(store: Store, scopeDeletes: seq<Path>, gds: seq<Path>, ss: seq<Path>, shared: string,
                   on: bool, asked: bool)
    requires forall d :: d in scopeDeletes ==> d == ScopeBase(shared) + ["authoritative"] || |d| > 5
    requires forall d :: d in gds ==> !HasPrefix(ScopeBase(shared) + ["authoritative"], d)
    requires ScopeBase(shared) + ["authoritative"] in ss <==> asked
    ensures var p := ScopeBase(shared) + ["authoritative"];
      var t := DisablePath(shared);
      var ds := scopeDeletes + gds;
      var ops := if on then Deletes(ds + [t]) + Sets(ss) else Deletes(ds) + Sets(ss + [t]);
      p in Run(store, ops) <==> asked || (p in store && p !in scopeDeletes)
  {
    var p := ScopeBase(shared) + ["authoritative"];
    var t := DisablePath(shared);
    assert !HasPrefix(p, t) by { assert p[4] != t[4]; }
    assert HasPrefix(p, p);
    ToggleReach(store, scopeDeletes + gds, ss, t, p, on);
  }


  /**
   * update_dhcp as written: afterwards the authoritative flag is on exactly when
   * the payload asks for it, or it was on and either the previous scope did not
   * have it or the scope moved to another shared network or subnet (the move
   * deletes only the old subnet, so a flag switched off survives).
   */
  lemma UpdateFlagAsWritten(store: Store, s: Scope, g: Global, existing: Existing)
    requires Given(s.sharedNetwork).Some? && Given(s.subnet).Some?
    ensures var p := ScopeBase(Given(s.sharedNetwork).value) + ["authoritative"];
      p in Run(store, UpdateOps(s, g, existing)) <==>
        s.authoritative || (p in store && (!existing.scope.authoritative || IdentityChanged(s, existing.scope)))
  {
    var shared := Given(s.sharedNetwork).value;
    var subnet := Given(s.subnet).value;
    DeleteCommandsReachFlag(shared, subnet, s, existing.scope);
    UpdateFlagWith(store, DeleteCommands(s, Some(existing.scope)), s, g, existing, shared, subnet);
  }


  /**
   * The finding at the handler level: an accepted update that moves an
   * authoritative scope to another subnet of the same shared network and
   * switches the flag off leaves the flag on the device.
   */
  lemma UpdateLeavesFlagOnMove(store: Store, d: Option<Scope>, altId: Option<string>, g: Global, existing: Existing,
                               next: nat, shared: string)
    requires UpdateBatch(d, altId, g, existing, next).Pass?
    requires Given(d.value.sharedNetwork) == Some(shared) && Given(existing.scope.sharedNetwork) == Some(shared)
    requires Given(existing.scope.subnet).Some? && Given(existing.scope.subnet) != Given(d.value.subnet)
    requires existing.scope.authoritative && !d.value.authoritative
    requires ScopeBase(shared) + ["authoritative"] in store
    ensures ScopeBase(shared) + ["authoritative"] in Run(store, UpdateBatch(d, altId, g, existing, next).value)
  {
    UpdateBatchValue(d, altId, g, existing, next);
    UpdateFlagAsWritten(store, UpdatedScope(d.value, altId, existing, next), g, existing);
  }

  /**
   * The corrected update: afterwards the authoritative flag is on exactly when
   * the payload asks for it, or it was on and the previous scope did not have
   * it, whether or not the scope moved.
   */
  lemma UpdateFlagFixed(store: Store, s: Scope, g: Global, existing: Existing)
    requires Given(s.sharedNetwork).Some? && Given(s.subnet).Some?
    ensures var p := ScopeBase(Given(s.sharedNetwork).value) + ["authoritative"];
      p in Run(store, UpdateOpsFixed(s, g, existing)) <==>
        s.authoritative || (p in store && !existing.scope.authoritative)
  {
    var shared := Given(s.sharedNetwork).value;
    var subnet := Given(s.subnet).value;
    DeleteCommandsFixedReachFlag(shared, subnet, s, existing.scope);
    UpdateFlagWith(store, DeleteCommandsFixed(s, Some(existing.scope)), s, g, existing, shared, subnet);
  }


  /**
   * A successful create only adds to the device: everything already there stays,
   * the scope and global paths are added, and the disable flag is on afterwards
   * when the scope starts switched off or the flag was already there.
   */
  lemma CreateEffect(store: Store, d: Option<Scope>, altId: Option<string>, g: Global, existing: Existing, next: nat)
    requires CreateBatch(d, altId, g, existing, next).Pass?
    ensures var s := CreatedScope(d.value, altId, existing, next);
      var after := Run(store, CreateBatch(d, altId, g, existing, next).value);
      && SetCommands(s).Ok?
      && store <= after
      && (forall p :: p in SetCommands(s).value + GlobalSetCommands(g) ==> p in after)
      && (DisablePath(Given(s.sharedNetwork).value) in after <==> !s.enabled || DisablePath(Given(s.sharedNetwork).value) in store)
  {
    var s := CreatedScope(d.value, altId, existing, next);
    var shared := Given(s.sharedNetwork).value;
    DisableNotSet(s, shared, Given(s.subnet).value, g);
    AddBatch(store, SetCommands(s).value + GlobalSetCommands(g), DisablePath(shared), s.enabled);
  }

  /**
   * The subnet id the update writes: the payload's own when it has one, else
   * the scope's current id, else the next free one, else the counter.
   */
  lemma UpdateWritesSubnetId(d: Option<Scope>, altId: Option<string>, g: Global, existing: Existing, next: nat)
    requires UpdateBatch(d, altId, g, existing, next).Pass?
    ensures var s := UpdatedScope(d.value, altId, existing, next);
      var sp := SubnetPath(Given(s.sharedNetwork).value, Given(s.subnet).value);
      && SetCommands(s).Ok?
      && Read(SetCommands(s).value, SubnetIdKey(sp)) == OptSet(Some(UpdateSubnetId(d.value, altId, existing.scope.subnetId, existing.nextAvailable, next)))
  {
    var s := UpdatedScope(d.value, altId, existing, next);
    SetCommandsReadBack(s, Given(s.sharedNetwork).value, Given(s.subnet).value);
  }

  /**
   * delete_dhcp: refused unless the lookup found a scope with both a shared
   * network and a subnet; otherwise the one path that goes to configure_delete.
   */
  function DeleteScopePath(existing: Existing): (r: Checked<Path>)
    ensures !existing.configured ==> r == Refuse(400, "No DHCP configuration exists for this interface.")
    ensures existing.configured && (Given(existing.scope.sharedNetwork).None? || Given(existing.scope.subnet).None?) ==>
      r == Refuse(400, "Invalid configuration state.")
    ensures r.Pass? <==> existing.configured && Given(existing.scope.sharedNetwork).Some? && Given(existing.scope.subnet).Some?
    ensures r.Pass? ==>
      |r.value| == 6 && HasPrefix(r.value, ScopeBase(Given(existing.scope.sharedNetwork).value))
      && r.value[5] == Given(existing.scope.subnet).value
  {
    if !existing.configured then Refuse(400, "No DHCP configuration exists for this interface.")
    else if Given(existing.scope.sharedNetwork).None? || Given(existing.scope.subnet).None? then
      Refuse(400, "Invalid configuration state.")
    else Pass(SubnetPath(Given(existing.scope.sharedNetwork).value, Given(existing.scope.subnet).value))
  }

  /**
   * Deleting a scope removes everything below its subnet and nothing else: other
   * subnets and the shared network's own flags stay.
   */
  lemma DeleteScopeEffect(store: Store, existing: Existing)
    requires DeleteScopePath(existing).Pass?
    ensures var sp := DeleteScopePath(existing).value;
      forall q :: q in Run(store, [Delete(sp)]) <==> q in store && !HasPrefix(q, sp)
  {
    var sp := DeleteScopePath(existing).value;
    assert [Delete(sp)][1..] == [];
    assert Run(store, [Delete(sp)]) == Step(store, Delete(sp));
  }

  // ---------------------------------------------------------------------
  // The older copy of the views

  /** What the older diff deletes for an edit that keeps the shared network and subnet. */
  function LegacySameScopeDeletes(shared: string, subnet: string, s: Scope, prev: Scope): seq<Path>
  {
    var sp := SubnetPath(shared, subnet);
    AuthoritativeOff(shared, s, prev)
    + StaleMappings(sp, prev.staticMappings, s.staticMappings)
    + Removed(ExcludeKey(sp), prev.excludes, s.excludes)
  }

  /**
   * The older _build_delete_commands: a moved scope still deletes the old
   * subnet whole, but an edit in place only deletes the authoritative flag, the
   * removed static mappings and the removed excludes.
   */
  function LegacyDeleteCommands(s: Scope, prev: Option<Scope>): seq<Path>
    requires Given(s.sharedNetwork).Some? && Given(s.subnet).Some?
  {
    if prev.None? then []
    else if IdentityChanged(s, prev.value) then
      [SubnetPath(Given(prev.value.sharedNetwork).value, Given(prev.value.subnet).value)]
    else LegacySameScopeDeletes(Given(s.sharedNetwork).value, Given(s.subnet).value, s, prev.value)
  }

  /** In place, the newer diff is the older one followed by the name-server and search-domain deletes. */
  lemma SameScopeExtendsLegacy(shared: string, subnet: string, s: Scope, prev: Scope)
    ensures HasPrefix(SameScopeDeletes(shared, subnet, s, prev), LegacySameScopeDeletes(shared, subnet, s, prev))
  {
    var sp := SubnetPath(shared, subnet);
    var a := LegacySameScopeDeletes(shared, subnet, s, prev);
    var b := Removed(NameServerKey(sp), prev.dnsServers, s.dnsServers);
    var c := Removed(SearchKey(sp), prev.searchDomains, s.searchDomains);
    assert SameScopeDeletes(shared, subnet, s, prev) == a + b + c;
    assert (a + b + c)[..|a|] == a;
  }

  /** The older diff is the newer one cut short: it stops before the name servers and search domains. */
  lemma LegacyDeletesPrefix(s: Scope, prev: Option<Scope>)
    requires Given(s.sharedNetwork).Some? && Given(s.subnet).Some?
    ensures HasPrefix(DeleteCommands(s, prev), LegacyDeleteCommands(s, prev))
  {
    if prev.Some? && !IdentityChanged(s, prev.value) {
      var shared := Given(s.sharedNetwork).value;
      var subnet := Given(s.subnet).value;
      DeleteCommandsInPlace(s, prev.value, shared, subnet);
      LegacyDeletesInPlace(s, prev.value, shared, subnet);
      SameScopeExtendsLegacy(shared, subnet, s, prev.value);
    }
  }

  /**
   * What the older diff deletes in place: the removed excludes and mappings as
   * the newer one does, and nothing under the name-server or search-domain keys.
   */
  lemma LegacyDeleteReads(shared: string, subnet: string, s: Scope, prev: Scope, k: Path)
    requires |k| > 5
    ensures var sp := SubnetPath(shared, subnet);
      Read(LegacySameScopeDeletes(shared, subnet, s, prev), k) ==
        (if k == MappingKey(sp) then MappingNames(prev.staticMappings) - MappingNames(s.staticMappings) else {})
        + (if k == ExcludeKey(sp) then GivenSet(prev.excludes) - GivenSet(s.excludes) else {})
  {
    var sp := SubnetPath(shared, subnet);
    var a0 := AuthoritativeOff(shared, s, prev);
    var a1 := StaleMappings(sp, prev.staticMappings, s.staticMappings);
    var a2 := Removed(ExcludeKey(sp), prev.excludes, s.excludes);
    assert LegacySameScopeDeletes(shared, subnet, s, prev) == a0 + a1 + a2;
    assert Read(a0, k) == {} by {
      forall p | p in a0 ensures !Keyed(p, k) {
        assert |p| == 5;
      }
    }
    ReadStaleMappings(sp, prev.staticMappings, s.staticMappings, k);
    ReadRemoved(ExcludeKey(sp), prev.excludes, s.excludes, k);
    ReadAppend(a0, a1, k);
    ReadAppend(a0 + a1, a2, k);
  }

  /** An in-place edit under the older views uses the older per-item diff. */
  lemma LegacyDeletesInPlace(s: Scope, prev: Scope, shared: string, subnet: string)
    requires Given(s.sharedNetwork) == Some(shared) && Given(s.subnet) == Some(subnet)
    requires !IdentityChanged(s, prev)
    ensures LegacyDeleteCommands(s, Some(prev)) == LegacySameScopeDeletes(shared, subnet, s, prev)
  {
  }

  // The older update handler talks to the device one call at a time

  /** Python's `t in s` on strings. */
  predicate Occurs(t: string, s: string)
    decreases |s|
  {
    StartsWith(s, t) || (s != [] && Occurs(t, s[1..]))
  }

  /** A configure_set error the older handlers give up on: any text but the device's "list index out of range" quirk. */
  predicate FatalSetError(error: string)
  {
    Strip(error) != [] && !Occurs("list index out of range", Lower(Strip(error)))
  }

  /** The older handlers' batches: deletes sent one by one, sets in one call, then the disable flag on its own. */
  datatype LegacyPlan = LegacyPlan(deletes: seq<Path>, sets: seq<Path>, disable: Path, enabled: bool)

  /** A device call changes the store only when it reports no error. */
  function Applied(store: Store, ops: seq<Op>, resp: Response): (r: Store)
    ensures resp.error != [] ==> r == store
    ensures resp.error == [] ==> r == Run(store, ops)
  {
    if resp.error == [] then Run(store, ops) else store
  }

  /** The device's answer to the i-th delete call; calls past the given answers succeed. */
  function ResponseAt(rs: seq<Response>, i: nat): Response
  {
    if i < |rs| then rs[i] else Response(200, "")
  }

  /** The store after the deletes were sent one call each, the i-th answered by the i-th response. */
  function DeleteEach(store: Store, ds: seq<Path>, rs: seq<Response>): Store
    decreases |ds|
  {
    if ds == [] then store
    else Applied(DeleteEach(store, ds[..|ds| - 1], rs), [Delete(ds[|ds| - 1])], ResponseAt(rs, |ds| - 1))
  }

  /** The older update's answer: only the set call's error can fail it. */
  function LegacyStatus(plan: LegacyPlan, setResp: Response): (r: Checked<()>)
    ensures r.Refuse? <==> plan.sets != [] && FatalSetError(setResp.error)
    ensures r.Refuse? ==> r.code == 500 && r.message == "Configure set failed: " + Strip(setResp.error)
  {
    if plan.sets != [] && FatalSetError(setResp.error) then
      Refuse(500, "Configure set failed: " + Strip(setResp.error))
    else Pass(())
  }

  /** The disable flag's call: removed when the scope stays enabled, set when it is switched off. */
  function ToggleOps(plan: LegacyPlan): seq<Op>
  {
    if plan.enabled then [Delete(plan.disable)] else [Set(plan.disable)]
  }

  /** The store after the older update: the deletes, the sets, and the flag's call unless the sets failed. */
  function LegacyAfter(store: Store, plan: LegacyPlan, rs: seq<Response>, setResp: Response, toggleResp: Response): Store
  {
    var afterDeletes := DeleteEach(store, plan.deletes, rs);
    var afterSets := if plan.sets == [] then afterDeletes else Applied(afterDeletes, Sets(plan.sets), setResp);
    if LegacyStatus(plan, setResp).Refuse? then afterSets
    else Applied(afterSets, ToggleOps(plan), toggleResp)
  }

  /**
   * The device calls of the older update_dhcp: each delete on its own with its
   * error only logged, then the sets in one call whose error is fatal unless it
   * is the "list index out of range" quirk, then the flag.
   */
  method LegacyApply(store: Store, plan: LegacyPlan, rs: seq<Response>, setResp: Response, toggleResp: Response)
    returns (status: Checked<()>, after: Store)
    ensures status == LegacyStatus(plan, setResp)
    ensures after == LegacyAfter(store, plan, rs, setResp, toggleResp)
  {
    after := store;
    var i := 0;
    while i < |plan.deletes|
      invariant 0 <= i <= |plan.deletes|
      invariant after == DeleteEach(store, plan.deletes[..i], rs)
    {
      assert plan.deletes[..i + 1][..i] == plan.deletes[..i];
      after := Applied(after, [Delete(plan.deletes[i])], ResponseAt(rs, i));
      i := i + 1;
    }
    assert plan.deletes[..i] == plan.deletes;
    if plan.sets != [] {
      after := Applied(after, Sets(plan.sets), setResp);
      if FatalSetError(setResp.error) {
        status := Refuse(500, "Configure set failed: " + Strip(setResp.error));
        return;
      }
    }
    after := Applied(after, ToggleOps(plan), toggleResp);
    status := Pass(());
  }

  /** Deleting one call at a time removes at most what one batch would, and never adds anything. */
  lemma {:induction false} DeleteEachBounds(store: Store, ds: seq<Path>, rs: seq<Response>)
    ensures Without(store, ds) <= DeleteEach(store, ds, rs) <= store
    decreases |ds|
  {
    if ds != [] {
      var init := ds[..|ds| - 1];
      var d := ds[|ds| - 1];
      DeleteEachBounds(store, init, rs);
      var before := DeleteEach(store, init, rs);
      RunDeletes(before, [d]);
      assert Deletes([d]) == [Delete(d)];
      assert forall x :: x in ds <==> x in init || x == d;
    }
  }

  /** When every delete call succeeds, the deletes together act as one batch. */
  lemma {:induction false} DeleteEachAllOk(store: Store, ds: seq<Path>, rs: seq<Response>)
    requires forall i :: 0 <= i < |ds| ==> ResponseAt(rs, i).error == []
    ensures DeleteEach(store, ds, rs) == Without(store, ds)
    decreases |ds|
  {
    if ds != [] {
      var init := ds[..|ds| - 1];
      var d := ds[|ds| - 1];
      DeleteEachAllOk(store, init, rs);
      RunDeletes(Without(store, init), [d]);
      assert Deletes([d]) == [Delete(d)];
      assert forall x :: x in ds <==> x in init || x == d;
    }
  }

  /**
   * When every call succeeds, the older update ends like one batch of deletes
   * then sets: away from the flag, a path is there afterwards exactly when it
   * survived the deletes or was set, and the flag is on exactly when the scope
   * is switched off, provided no set path lies below the flag.
   */
  lemma LegacyAllOk(store: Store, plan: LegacyPlan, rs: seq<Response>, setResp: Response, toggleResp: Response)
    requires forall i :: 0 <= i < |plan.deletes| ==> ResponseAt(rs, i).error == []
    requires setResp.error == [] && toggleResp.error == []
    requires forall p :: p in plan.sets ==> !HasPrefix(p, plan.disable)
    ensures LegacyStatus(plan, setResp).Pass?
    ensures var after := LegacyAfter(store, plan, rs, setResp, toggleResp);
      && (plan.disable in after <==> !plan.enabled)
      && (forall p :: p in plan.sets ==> p in after)
      && forall q :: !HasPrefix(q, plan.disable) ==> (q in after <==> q in Without(store, plan.deletes) || q in plan.sets)
  {
    assert !FatalSetError(setResp.error) by { assert Strip(setResp.error) == []; }
    DeleteEachAllOk(store, plan.deletes, rs);
    var afterDeletes := Without(store, plan.deletes);
    var afterSets := Run(afterDeletes, Sets(plan.sets));
    RunSets(afterDeletes, plan.sets);
    assert LegacyAfter(store, plan, rs, setResp, toggleResp) == Run(afterSets, ToggleOps(plan));
    if plan.enabled {
      assert Run(afterSets, ToggleOps(plan)) == Step(afterSets, Delete(plan.disable));
      assert HasPrefix(plan.disable, plan.disable);
    } else {
      assert Run(afterSets, ToggleOps(plan)) == Step(afterSets, Set(plan.disable));
    }
  }

  /**
   * The older update_dhcp up to its device calls: the same refusals as the
   * newer handler, then the older diff and the global diff as deletes, the
   * scope and global batches as the sets, and the flag.
   */
  function LegacyUpdatePlan(d: Option<Scope>, altId: Option<string>, g: Global, existing: Existing, next: nat): (r: Checked<LegacyPlan>)
    ensures r.Pass? <==> UpdateBatch(d, altId, g, existing, next).Pass?
    ensures r.Refuse? ==> UpdateBatch(d, altId, g, existing, next) == Refuse(r.code, r.message)
    ensures r.Pass? ==> forall p :: p in r.value.sets ==> !HasPrefix(p, r.value.disable)
  {
    if ValidationError(d).Some? then Refuse(400, ValidationError(d).value)
    else if !existing.configured then Refuse(400, "No DHCP configuration exists for this interface. Use create instead.")
    else
      var s := UpdatedScope(d.value, altId, existing, next);
      var shared := Given(s.sharedNetwork).value;
      DisableNotSet(s, shared, Given(s.subnet).value, g);
      Pass(LegacyPlan(
        LegacyDeleteCommands(s, Some(existing.scope)) + GlobalDeleteCommands(g, existing.global),
        SetCommands(s).value + GlobalSetCommands(g),
        DisablePath(shared),
        s.enabled))
  }

  /** No delete of the older in-place diff reaches a name-server value. */
  lemma LegacyDeletesMissNameServers(shared: string, subnet: string, s: Scope, prev: Scope, v: string)
    ensures forall d :: d in LegacySameScopeDeletes(shared, subnet, s, prev) ==>
      !HasPrefix(NameServerKey(SubnetPath(shared, subnet)) + [v], d)
  {
    var sp := SubnetPath(shared, subnet);
    var q := NameServerKey(sp) + [v];
    var a0 := AuthoritativeOff(shared, s, prev);
    var a1 := StaleMappings(sp, prev.staticMappings, s.staticMappings);
    var a2 := Removed(ExcludeKey(sp), prev.excludes, s.excludes);
    assert LegacySameScopeDeletes(shared, subnet, s, prev) == a0 + a1 + a2;
    StaleMappingsKeyed(sp, prev.staticMappings, s.staticMappings);
    RemovedKeyed(ExcludeKey(sp), prev.excludes, s.excludes);
    assert q[4] == "subnet" && q[6] == "option" && |q| == 9;
    forall d | d in a0 ensures !HasPrefix(q, d) {
      assert d[4] == "authoritative";
    }
    forall d | d in a1 ensures !HasPrefix(q, d) {
      assert d[..7] == MappingKey(sp);
      assert d[6] == "static-mapping";
    }
    forall d | d in a2 ensures !HasPrefix(q, d) {
      assert d[..7] == ExcludeKey(sp);
      assert d[6] == "exclude";
    }
  }

  /** No global delete reaches below a shared network. */
  lemma GlobalDeletesMiss(g: Global, prev: Option<Global>, q: Path)
    requires |q| >= 3 && q[2] == "shared-network-name"
    ensures forall d :: d in GlobalDeleteCommands(g, prev) ==> !HasPrefix(q, d)
  {
    GlobalDeleteShape(g, prev);
    forall d | d in GlobalDeleteCommands(g, prev) ensures !HasPrefix(q, d) {
      assert d[2] == d[..3][2];
    }
  }

  /** A path no delete reaches and the flag does not cover is still there after the older update. */
  lemma LegacyKeeps(store: Store, plan: LegacyPlan, rs: seq<Response>, setResp: Response, toggleResp: Response, q: Path)
    requires q in store
    requires forall d :: d in plan.deletes ==> !HasPrefix(q, d)
    requires !HasPrefix(q, plan.disable)
    ensures q in LegacyAfter(store, plan, rs, setResp, toggleResp)
  {
    DeleteEachBounds(store, plan.deletes, rs);
    var afterDeletes := DeleteEach(store, plan.deletes, rs);
    assert q in afterDeletes;
    RunSets(afterDeletes, plan.sets);
    var afterSets := if plan.sets == [] then afterDeletes else Applied(afterDeletes, Sets(plan.sets), setResp);
    assert q in afterSets;
    if plan.enabled {
      assert Run(afterSets, ToggleOps(plan)) == Step(afterSets, Delete(plan.disable));
    } else {
      assert Run(afterSets, ToggleOps(plan)) == Step(afterSets, Set(plan.disable));
    }
  }

  /** The plan of an older in-place update, spelled out. */
  lemma LegacyPlanInPlace(d: Option<Scope>, altId: Option<string>, g: Global, existing: Existing, next: nat, shared: string, subnet: string)
    requires LegacyUpdatePlan(d, altId, g, existing, next).Pass?
    requires Given(d.value.sharedNetwork) == Some(shared) && Given(d.value.subnet) == Some(subnet)
    requires !IdentityChanged(UpdatedScope(d.value, altId, existing, next), existing.scope)
    ensures var plan := LegacyUpdatePlan(d, altId, g, existing, next).value;
      && plan.deletes == LegacySameScopeDeletes(shared, subnet, UpdatedScope(d.value, altId, existing, next), existing.scope)
        + GlobalDeleteCommands(g, existing.global)
      && plan.disable == DisablePath(shared)
  {
    LegacyDeletesInPlace(UpdatedScope(d.value, altId, existing, next), existing.scope, shared, subnet);
  }

  /** Nothing in an older in-place plan reaches a name-server value of the scope. */
  lemma LegacyPlanKeepsNameServer(store: Store, shared: string, subnet: string, s: Scope, prev: Scope, g: Global, gp: Option<Global>,
                                  plan: LegacyPlan, rs: seq<Response>, setResp: Response, toggleResp: Response, v: string)
    requires plan.deletes == LegacySameScopeDeletes(shared, subnet, s, prev) + GlobalDeleteCommands(g, gp)
    requires plan.disable == DisablePath(shared)
    requires NameServerKey(SubnetPath(shared, subnet)) + [v] in store
    ensures NameServerKey(SubnetPath(shared, subnet)) + [v] in LegacyAfter(store, plan, rs, setResp, toggleResp)
  {
    var q := NameServerKey(SubnetPath(shared, subnet)) + [v];
    LegacyDeletesMissNameServers(shared, subnet, s, prev, v);
    GlobalDeletesMiss(g, gp, q);
    assert !HasPrefix(q, plan.disable) by {
      assert q[4] == "subnet";
    }
    LegacyKeeps(store, plan, rs, setResp, toggleResp, q);
  }

  /**
   * The older update never removes a name server when the scope stays where it
   * is: whatever the device answers, a value that was under the name-server key
   * is still there afterwards, even when the payload dropped it. The newer
   * batch deletes exactly the dropped ones (DhcpScope.InPlaceListUpdate).
   */
  lemma LegacyUpdateKeepsNameServers(store: Store, d: Option<Scope>, altId: Option<string>, g: Global, existing: Existing,
                                     next: nat, rs: seq<Response>, setResp: Response, toggleResp: Response,
                                     shared: string, subnet: string, v: string)
    requires LegacyUpdatePlan(d, altId, g, existing, next).Pass?
    requires Given(d.value.sharedNetwork) == Some(shared) && Given(d.value.subnet) == Some(subnet)
    requires !IdentityChanged(UpdatedScope(d.value, altId, existing, next), existing.scope)
    requires NameServerKey(SubnetPath(shared, subnet)) + [v] in store
    ensures NameServerKey(SubnetPath(shared, subnet)) + [v]
      in LegacyAfter(store, LegacyUpdatePlan(d, altId, g, existing, next).value, rs, setResp, toggleResp)
  {
    LegacyPlanInPlace(d, altId, g, existing, next, shared, subnet);
    LegacyPlanKeepsNameServer(store, shared, subnet, UpdatedScope(d.value, altId, existing, next), existing.scope,
      g, existing.global, LegacyUpdatePlan(d, altId, g, existing, next).value, rs, setResp, toggleResp, v);
  }

  /** The older create_dhcp up to its device calls: the newer handler's refusals, then sets only. */
  function LegacyCreatePlan(d: Option<Scope>, altId: Option<string>, g: Global, existing: Existing, next: nat): (r: Checked<LegacyPlan>)
    ensures r.Pass? <==> CreateBatch(d, altId, g, existing, next).Pass?
    ensures r.Refuse? ==> CreateBatch(d, altId, g, existing, next) == Refuse(r.code, r.message)
    ensures r.Pass? ==> r.value.deletes == [] && !(r.value.disable in r.value.sets)
  {
    if ValidationError(d).Some? then Refuse(400, ValidationError(d).value)
    else if existing.configured then Refuse(400, "DHCP configuration already exists for this interface.")
    else
      var s := CreatedScope(d.value, altId, existing, next);
      var shared := Given(s.sharedNetwork).value;
      DisableNotSet(s, shared, Given(s.subnet).value, g);
      Pass(LegacyPlan([], SetCommands(s).value + GlobalSetCommands(g), DisablePath(shared), s.enabled))
  }

  /** The store after the older create: the sets in one call, then the flag's own set when the scope starts switched off. */
  function LegacyCreateAfter(store: Store, plan: LegacyPlan, setResp: Response, toggleResp: Response): Store
  {
    var afterSets := if plan.sets == [] then store else Applied(store, Sets(plan.sets), setResp);
    if LegacyStatus(plan, setResp).Refuse? || plan.enabled then afterSets
    else Applied(afterSets, [Set(plan.disable)], toggleResp)
  }

  /**
   * The older create only ever adds to the device, whatever it answers; when
   * every call succeeds, every set path is there and the flag is on exactly
   * when the scope starts switched off or it was on already.
   */
  lemma LegacyCreateEffect(store: Store, plan: LegacyPlan, setResp: Response, toggleResp: Response)
    ensures store <= LegacyCreateAfter(store, plan, setResp, toggleResp)
    ensures setResp.error == [] && toggleResp.error == [] && plan.disable !in plan.sets ==>
      var after := LegacyCreateAfter(store, plan, setResp, toggleResp);
      && LegacyStatus(plan, setResp).Pass?
      && (forall p :: p in plan.sets ==> p in after)
      && (plan.disable in after <==> !plan.enabled || plan.disable in store)
  {
    RunSets(store, plan.sets);
    var afterSets := if plan.sets == [] then store else Applied(store, Sets(plan.sets), setResp);
    assert store <= afterSets;
    assert Run(afterSets, [Set(plan.disable)]) == Step(afterSets, Set(plan.disable));
    if setResp.error == [] {
      assert !FatalSetError(setResp.error) by { assert Strip(setResp.error) == []; }
    }
  }

  // ---------------------------------------------------------------------
  // list_leases: the pool filter

  /** The names a lease's pool may carry: the scope's shared network under either spelling, trimmed and lower-cased. */
  function PoolNames(sharedNetwork: Option<string>, sharedNetworkName: Option<string>): (r: set<string>)
    ensures forall c :: c in r ==> c != []
    ensures r == {} <==> Given(sharedNetwork).None? && Given(sharedNetworkName).None?
  {
    PoolName(sharedNetwork) + PoolName(sharedNetworkName)
  }

  function PoolName(v: Option<string>): (r: set<string>)
    ensures forall c :: c in r ==> c != []
    ensures r == {} <==> Given(v).None?
  {
    match Given(v)
    case None => {}
    case Some(name) => assert |Lower(name)| == |name|; {Lower(name)}
  }

  /** A lease with no pool, or one naming a candidate whatever its case and surrounding blanks. */
  predicate InPool(l: Lease, names: set<string>)
  {
    l.pool == [] || Lower(Strip(l.pool)) in names
  }

  /** The leases of the list comprehension, in order. */
  function KeepInPool(leases: seq<Lease>, names: set<string>): (r: seq<Lease>)
    ensures |r| <= |leases|
    ensures forall l :: l in r <==> l in leases && InPool(l, names)
  {
    if leases == [] then []
    else (if InPool(leases[0], names) then [leases[0]] else []) + KeepInPool(leases[1..], names)
  }

  /** The filter is applied only when the scope names a shared network. */
  function FilterLeases(leases: seq<Lease>, names: set<string>): (r: seq<Lease>)
    ensures names == {} ==> r == leases
    ensures forall l :: l in r <==> l in leases && (names == {} || InPool(l, names))
  {
    if names == {} then leases else KeepInPool(leases, names)
  }

  /** The filter keeps the device's order: filtering two runs of leases is filtering each. */
  lemma {:induction false} KeepInPoolAppend(a: seq<Lease>, b: seq<Lease>, names: set<string>)
    ensures KeepInPool(a + b, names) == KeepInPool(a, names) + KeepInPool(b, names)
  {
    if a != [] {
      assert (a + b)[0] == a[0] && (a + b)[1..] == a[1..] + b;
      KeepInPoolAppend(a[1..], b, names);
    } else {
      assert a + b == b;
    }
  }

  /** Filtering a second time changes nothing. */
  lemma {:induction false} KeepInPoolIdempotent(leases: seq<Lease>, names: set<string>)
    ensures KeepInPool(KeepInPool(leases, names), names) == KeepInPool(leases, names)
  {
    if leases != [] {
      var head: seq<Lease> := if InPool(leases[0], names) then [leases[0]] else [];
      KeepInPoolAppend(head, KeepInPool(leases[1..], names), names);
      KeepInPoolIdempotent(leases[1..], names);
      if InPool(leases[0], names) {
        assert [leases[0]][1..] == [];
      }
    }
  }
}
