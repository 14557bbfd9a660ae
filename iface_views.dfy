/**
 * The interface handlers' request logic: interfaces_edit (its checks, the
 * rule that a zone keeps at least one interface, the membership change, the
 * source-NAT rule and the one batch that carries the rest), add_interface's
 * checks and base commands, and the legacy copies of the zone check, the
 * add checks and the base-command builder.
 *
 * What a handler reads from the device (the zone and NAT configuration, the
 * address the interface had, the DHCP and DNS paths an address change
 * replaces) is a parameter, and so is the device's answer to each call.
 */
module IfaceViews {
  import opened Wrappers
  import opened Text
  import opened ConfigTree
  import opened Paths
  import opened Device
  import opened Zones
  import Ipv4
  import DhcpPaths
  import ManagedNat
  import IfaceUtils

  // ---------------------------------------------------------------------------
  // Messages

  const ModeInvalid := "Mode must be either DHCP or Static."
  const ZoneRequired := "Zone assignment is required."
  const StaticNeedsCidr := "Static mode requires a valid CIDR address."
  const NatNotEthernet := "Source NAT interface must be an ethernet interface (e.g. eth0)."
  const NatNeedsStatic := "Source NAT requires a static address."
  const NoSourceNetwork := "Unable to derive source network for NAT."
  const IfaceRequired := "Interface name is required."
  const OnlyBaseInterfaces := "Only base ethernet interfaces can be added here."
  const IfaceNotEthernet := "Interface must be an ethernet interface (e.g. eth0)."
  const StaticNeedsAddress := "Static interfaces require an address."
  const AddressNotCidr := "Address must be valid CIDR (e.g. 192.168.0.1/24)."

  const RetainLead := "Cannot remove interface from zone '"
  const RetainTail := "'. The zone must retain at least one interface. Please add another interface to the zone first."

  function RetainMessage(zone: string): string
  {
    RetainLead + zone + RetainTail
  }

  function LegacyRetainMessage(zone: string): string
  {
    "Zone " + zone + " must retain at least one interface."
  }

  function ZoneStatusMessage(status: int): string
  {
    "Device returned status " + IntStr(status) + " while updating zone membership"
  }

  function BatchErrorMessage(error: string): string
  {
    "Failed to update config: " + error
  }

  function BatchStatusMessage(status: int): string
  {
    "Device returned status " + IntStr(status)
  }

  function AlreadyConfigured(iface: string): string
  {
    iface + " is already configured."
  }

  // ---------------------------------------------------------------------------
  // Request fields

  /** A JSON string field is truthy when present and non-empty. */
  predicate Truthy(field: Option<string>)
  {
    field.Some? && field.value != ""
  }

  /** `field or fallback` */
  function Or(field: Option<string>, fallback: string): string
  {
    if Truthy(field) then field.value else fallback
  }

  /** (data.get("mode") or fallback).strip().lower() */
  function ModeOf(field: Option<string>, fallback: string): string
  {
    Lower(Strip(Or(field, fallback)))
  }

  predicate KnownMode(mode: string)
  {
    mode == "dhcp" || mode == "static"
  }

  /** sanitise_zone_name(zone_field) when the field is present; "" stands for None. */
  function ZoneNameOf(field: Option<string>): string
  {
    if field.Some? then SanitiseZoneName(field.value) else ""
  }

  /** A zone field that is given and non-empty but sanitises to nothing. */
  predicate ZoneUnusable(field: Option<string>)
  {
    field.Some? && field.value != "" && ZoneNameOf(field) == ""
  }

  // ---------------------------------------------------------------------------
  // load_cidr_network

  /** load_cidr_network: the network of an IPv4 interface address; nothing for a blank, "dhcp" or unparsable text. */
  function LoadCidrNetwork(address: Option<string>): (r: Option<string>)
    ensures r.Some? ==> Truthy(address) && DhcpPaths.ParseInterface(address.value).Some?
  {
    if !Truthy(address) || Lower(address.value) == "dhcp" then Option.None
    else
      match DhcpPaths.ParseInterface(address.value)
      case Some(x) => Some(DhcpPaths.NetworkText(x))
      case None => Option.None
  }

  /** Text that lower-cases to "dhcp" is no IPv4 interface, so the "dhcp" test only short-cuts the parse. */
  lemma DhcpDoesNotParse(a: string)
    ensures Lower(a) == "dhcp" ==> DhcpPaths.ParseInterface(a).None?
  {
    if Lower(a) == "dhcp" {
      assert forall i :: 0 <= i < |a| ==> LowerChar(a[i]) == "dhcp"[i];
      assert '/' !in a && '.' !in a;
      assert Split(a, '/') == [a];
      assert Split(a, '.') == [a];
    }
  }

  /** What is_valid_network_prefix's acceptance says about the text: four strict octets, a slash, a prefix of at most 32. */
  lemma PrefixValidShape(a: string, detail: string)
    requires Ipv4.IsValidNetworkPrefix(Some(a), detail).valid
    ensures var parts := Split(a, '/');
      |parts| == 2 && IsDigitString(parts[1]) && ParseInt(parts[1]).Some? && ParseInt(parts[1]).value <= 32 &&
      |Split(parts[0], '.')| == 4 && forall i :: 0 <= i < 4 ==> Ipv4.StrictOctet(Split(parts[0], '.')[i])
  {
  }

  lemma ShapedPrefix(s: string)
    requires IsDigitString(s) && ParseInt(s).Some? && ParseInt(s).value <= 32
    ensures DhcpPaths.ParsePrefix(s).Some?
  {
    Ipv4.ParseDigits(s);
  }

  lemma ShapedAddress(s: string)
    requires |Split(s, '.')| == 4 && forall i :: 0 <= i < 4 ==> Ipv4.StrictOctet(Split(s, '.')[i])
    ensures DhcpPaths.ParseAddress(s).Some?
  {
  }

  /** Text of that shape parses as an IPv4 interface. */
  lemma ShapedParses(a: string)
    requires var parts := Split(a, '/');
      |parts| == 2 && IsDigitString(parts[1]) && ParseInt(parts[1]).Some? && ParseInt(parts[1]).value <= 32 &&
      |Split(parts[0], '.')| == 4 && forall i :: 0 <= i < 4 ==> Ipv4.StrictOctet(Split(parts[0], '.')[i])
    ensures DhcpPaths.ParseInterface(a).Some?
  {
    var parts := Split(a, '/');
    ShapedPrefix(parts[1]);
    ShapedAddress(parts[0]);
  }

  /** Every address is_valid_network_prefix accepts parses as an IPv4 interface. */
  lemma PrefixValidParses(a: string, detail: string)
    requires Ipv4.IsValidNetworkPrefix(Some(a), detail).valid
    ensures DhcpPaths.ParseInterface(a).Some?
  {
    PrefixValidShape(a, detail);
    ShapedParses(a);
  }

  /** Every address is_valid_network_prefix accepts has a network. */
  lemma PrefixValidLoads(a: string, detail: string)
    requires Ipv4.IsValidNetworkPrefix(Some(a), detail).valid
    ensures LoadCidrNetwork(Some(a)).Some?
  {
    PrefixValidParses(a, detail);
    DhcpDoesNotParse(a);
  }

  // ---------------------------------------------------------------------------
  // The interface's path and zone

  /**
   * The configuration path of the interface: a VLAN's for "parent.vlan@parent",
   * the ethernet entry otherwise. None where the split raises IndexError and
   * the request fails with an unhandled exception.
   */
  function BasePath(iface: string): (r: Option<Path>)
    ensures r.Some? ==> |r.value| >= 3 && r.value[..2] == ["interfaces", "ethernet"]
    ensures '@' !in iface ==> r == Some(["interfaces", "ethernet", iface])
  {
    if '@' in iface then
      var halves := Split(iface, '@');
      var pieces := Split(halves[0], '.');
      if |halves| < 2 || |pieces| < 2 then Option.None
      else Some(["interfaces", "ethernet", halves[1], "vif", pieces[1]])
    else Some(["interfaces", "ethernet", iface])
  }

  /** The zone that holds the interface, as find_zone_for_interface reports it. */
  function InitialZone(iface: string, config: Entries): Option<string>
  {
    ZoneHolding(IfaceKey(iface), ZoneMembership(config))
  }

  /** sanitise_zone_name(initial_zone) when the interface has a zone; "" stands for None. */
  function InitialKey(initial: Option<string>): string
  {
    if initial.Some? && initial.value != "" then SanitiseZoneName(initial.value) else ""
  }

  /** Each member's key, lower-cased. */
  function LoweredMembers(members: set<string>): set<string>
  {
    set m | m in members :: Lower(IfaceKey(m))
  }

  /** The membership dict keyed by sanitised zone name; a later zone with the same key overwrites. */
  function SanitisedMembership(ms: seq<(string, set<string>)>): map<string, set<string>>
  {
    if ms == [] then map[]
    else
      var last := ms[|ms| - 1];
      SanitisedMembership(ms[..|ms| - 1])[SanitiseZoneName(last.0) := LoweredMembers(last.1)]
  }

  /** zone_has_other_members: no zone, or a zone with some member other than the interface. */
  predicate HasOtherMembers(membership: map<string, set<string>>, zoneKey: string, ifaceKey: string)
  {
    zoneKey == "" || (zoneKey in membership && membership[zoneKey] - {ifaceKey} != {})
  }

  /** The request takes the interface out of the zone it is in: another zone, or "" to unassign. */
  predicate WillRemove(zoneField: Option<string>, zoneName: string, initialKey: string)
  {
    zoneField.Some? && initialKey != "" && (zoneName == "" || initialKey != zoneName)
  }

  /** The request would leave the interface's zone with no interface. */
  predicate LeavesZoneEmpty(iface: string, zoneField: Option<string>, config: Entries)
  {
    var initialKey := InitialKey(InitialZone(iface, config));
    WillRemove(zoneField, ZoneNameOf(zoneField), initialKey) &&
    !HasOtherMembers(SanitisedMembership(ZoneMembership(config)), initialKey, Lower(IfaceKey(iface)))
  }

  /** The membership commands of an edit: what the set batch adds and what one delete call removes. */
  datatype ZonePlan = ZonePlan(add: seq<Path>, remove: seq<Path>)

  function PlanZone(zoneField: Option<string>, zoneName: string, initial: Option<string>, key: string,
                    config: Entries): ZonePlan
  {
    var initialKey := InitialKey(initial);
    if zoneField.Some? && zoneName != "" then
      var definition := BuildZoneDefinitionCommands(zoneName, config);
      if initial.None? || initial.value == "" || initialKey != zoneName then
        ZonePlan(definition + BuildZoneMembershipCommands(zoneName, key),
                 if initialKey != "" then BuildZoneMembershipDelete(initial.value, key) else [])
      else ZonePlan(definition, [])
    else if zoneField.Some? && initialKey != "" then
      ZonePlan([], BuildZoneMembershipDelete(initial.value, key))
    else ZonePlan([], [])
  }

  /** An edit removes a membership only when it takes the interface out of its zone, and only that one. */
  lemma PlanZoneRemovesOnlyWhenLeaving(zoneField: Option<string>, zoneName: string, initial: Option<string>,
                                       key: string, config: Entries)
    ensures var plan := PlanZone(zoneField, zoneName, initial, key, config);
      plan.remove != [] ==>
        WillRemove(zoneField, zoneName, InitialKey(initial)) && plan.remove == [MembershipPath(initial.value, key)]
    ensures var plan := PlanZone(zoneField, zoneName, initial, key, config);
      WillRemove(zoneField, zoneName, InitialKey(initial)) && key != "" ==> plan.remove != []
  {
    var initialKey := InitialKey(initial);
    if initialKey != "" {
      assert initial.Some? && SanitiseZoneName(initial.value) == initialKey;
    }
  }

  /**
   * The legacy edit's zone step: the same plan, with the "must retain" check
   * made in each branch that would remove the interface from its zone.
   */
  function LegacyPlanZone(zoneField: Option<string>, zoneName: string, initial: Option<string>, key: string,
                          config: Entries, membership: map<string, set<string>>, memberKey: string): Checked<ZonePlan>
  {
    var initialKey := InitialKey(initial);
    var refusal := Refuse(400, LegacyRetainMessage(initialKey));
    if zoneField.Some? && zoneName != "" then
      var definition := BuildZoneDefinitionCommands(zoneName, config);
      if initial.None? || initial.value == "" || initialKey != zoneName then
        if initialKey != "" && !HasOtherMembers(membership, initialKey, memberKey) then refusal
        else
          Pass(ZonePlan(definition + BuildZoneMembershipCommands(zoneName, key),
                        if initialKey != "" then BuildZoneMembershipDelete(initial.value, key) else []))
      else Pass(ZonePlan(definition, []))
    else if zoneField.Some? && initialKey != "" then
      if !HasOtherMembers(membership, initialKey, memberKey) then refusal
      else Pass(ZonePlan([], BuildZoneMembershipDelete(initial.value, key)))
    else Pass(ZonePlan([], []))
  }

  /** Both copies refuse in the same cases; otherwise they plan the same commands. */
  lemma LegacyZoneCheckAgrees(zoneField: Option<string>, zoneName: string, initial: Option<string>, key: string,
                              config: Entries, membership: map<string, set<string>>, memberKey: string)
    ensures LegacyPlanZone(zoneField, zoneName, initial, key, config, membership, memberKey) ==
      if WillRemove(zoneField, zoneName, InitialKey(initial)) && !HasOtherMembers(membership, InitialKey(initial), memberKey)
      then Refuse(400, LegacyRetainMessage(InitialKey(initial)))
      else Pass(PlanZone(zoneField, zoneName, initial, key, config))
  {
    var initialKey := InitialKey(initial);
    if initialKey != "" {
      assert initial.Some? && initial.value != "";
    }
  }

  // ---------------------------------------------------------------------------
  // interfaces_edit: checks

  /** The JSON fields the edit reads; None stands for a missing key or null. */
  datatype EditRequest = EditRequest(description: Option<string>, address: Option<string>, mode: Option<string>,
                                     zone: Option<string>, sourceNat: Option<string>, natRule: Option<string>)

  /** The checked request: the mode, the address to set, the sanitised zone ("" for none) and the source-NAT interface. */
  datatype Edit = Edit(mode: string, address: string, zoneName: string, sourceNat: string)

  /**
   * The checks interfaces_edit makes before it reads anything: the mode, the
   * zone name, a static address that is valid CIDR and an aligned network
   * prefix (`detail` is the text of the error the address parser raises), and
   * an ethernet source-NAT interface.
   */
  function ValidateEdit(req: EditRequest, detail: string): (r: Checked<Edit>)
    ensures r.Refuse? ==> r.code == 400
    ensures !KnownMode(ModeOf(req.mode, "")) ==> r == Refuse(400, ModeInvalid)
    ensures r.Pass? ==> KnownMode(r.value.mode) && r.value.mode == ModeOf(req.mode, "")
    ensures r.Pass? && r.value.mode == "dhcp" ==> r.value.address == "dhcp"
    ensures r.Pass? && r.value.mode == "static" ==>
      Some(r.value.address) == req.address && Ipv4.IsValidCidr(req.address) &&
      Ipv4.IsValidNetworkPrefix(req.address, detail).valid
    ensures r.Pass? ==> !ZoneUnusable(req.zone) && r.value.zoneName == ZoneNameOf(req.zone)
    ensures r.Pass? ==> r.value.sourceNat == "" || StartsWith(r.value.sourceNat, "eth")
  {
    var mode := ModeOf(req.mode, "");
    if !KnownMode(mode) then Refuse(400, ModeInvalid)
    else if ZoneUnusable(req.zone) then Refuse(400, ZoneRequired)
    else if mode == "static" && (!Truthy(req.address) || !Ipv4.IsValidCidr(req.address)) then Refuse(400, StaticNeedsCidr)
    else if mode == "static" && !Ipv4.IsValidNetworkPrefix(req.address, detail).valid then
      Refuse(400, Ipv4.IsValidNetworkPrefix(req.address, detail).message.value)
    else
      var sourceNat := Strip(Or(req.sourceNat, ""));
      if sourceNat != "" && !StartsWith(sourceNat, "eth") then Refuse(400, NatNotEthernet)
      else Pass(Edit(mode, if mode == "dhcp" then "dhcp" else req.address.value, ZoneNameOf(req.zone), sourceNat))
  }

  /** The corrected checks: the source-NAT mode test joins the others, before any change is made. */
  function ValidateEditFixed(req: EditRequest, detail: string): (r: Checked<Edit>)
    ensures r.Pass? ==> ValidateEdit(req, detail) == r
    ensures r.Pass? && r.value.sourceNat != "" ==> r.value.mode == "static"
    ensures ValidateEdit(req, detail).Refuse? ==> r == ValidateEdit(req, detail)
  {
    match ValidateEdit(req, detail)
    case Refuse(code, message) => Refuse(code, message)
    case Pass(edit) => if edit.sourceNat != "" && edit.mode != "static" then Refuse(400, NatNeedsStatic) else Pass(edit)
  }

  // ---------------------------------------------------------------------------
  // interfaces_edit: the NAT rule

  function RuleNumbers(rules: IfaceUtils.RuleMap): set<int>
  {
    set x | x in rules :: x.0
  }

  /** The rule number the request names, when it parses as an integer and that rule exists. */
  function HintedRule(hint: Option<string>, rules: IfaceUtils.RuleMap): (r: Option<int>)
    ensures r.Some? ==> r.value in RuleNumbers(rules) && hint.Some? && ParseInt(hint.value) == r
  {
    if hint.None? then Option.None
    else
      match ParseInt(hint.value)
      case Some(n) => if n in RuleNumbers(rules) then Some(n) else Option.None
      case None => Option.None
  }

  function NumberOf(found: Option<(int, Entries)>): Option<int>
  {
    if found.Some? then Some(found.value.0) else Option.None
  }

  /**
   * The interface's existing NAT rule: the hinted one, else the rule found for
   * the new network, else the rule found for the previous network.
   */
  function ExistingRule(c: ManagedNat.NatConstants, rules: IfaceUtils.RuleMap, key: string, hint: Option<string>,
                        candidate: Option<string>, previous: Option<string>): (r: Option<int>)
    ensures r.Some? ==> r.value in RuleNumbers(rules)
    ensures HintedRule(hint, rules).Some? ==> r == HintedRule(hint, rules)
  {
    var hinted := HintedRule(hint, rules);
    if hinted.Some? then hinted
    else
      var byCandidate := NumberOf(ManagedNat.FindNatRuleForIface(c, rules, key, candidate));
      if byCandidate.Some? then byCandidate
      else if Truthy(previous) then NumberOf(ManagedNat.FindNatRuleForIface(c, rules, key, previous))
      else Option.None
  }

  /** The NAT part of the batch: the rule's set commands, whether to delete the rule, and the number reported. */
  datatype NatPlan = NatPlan(sets: seq<Path>, deleteRule: bool, applied: Option<int>)

  function PlanNat(c: ManagedNat.NatConstants, rules: IfaceUtils.RuleMap, key: string, edit: Edit, existing: Option<int>)
    : (r: Checked<NatPlan>)
    ensures r.Refuse? ==> r.code == 400 && edit.sourceNat != ""
    ensures r.Pass? && edit.sourceNat == "" ==>
      (r.value.sets == [] && r.value.applied.None? && (r.value.deleteRule <==> existing.Some?))
    ensures r.Pass? && edit.sourceNat != "" ==>
      (!r.value.deleteRule && r.value.applied.Some? &&
       (existing.Some? ==> r.value.applied == existing) &&
       (existing.None? ==> r.value.applied.value !in RuleNumbers(rules)) &&
       r.value.sets != [] && forall p :: p in r.value.sets ==> HasPrefix(p, ManagedNat.Root(r.value.applied.value)))
  {
    if edit.sourceNat != "" then
      if edit.mode != "static" then Refuse(400, NatNeedsStatic)
      else
        var network := LoadCidrNetwork(Some(edit.address));
        if network.None? then Refuse(400, NoSourceNetwork)
        else if existing.Some? then
          Pass(NatPlan(ManagedNat.BuildNatRuleUpdateCommands(c, existing.value, edit.sourceNat, network.value, key),
                       false, existing))
        else
          var n := ManagedNat.NextNatRuleNumber(c, rules);
          Pass(NatPlan(ManagedNat.BuildNatRuleCommands(c, n, edit.sourceNat, network.value, key), false, Some(n)))
    else if existing.Some? then Pass(NatPlan([], true, Option.None))
    else Pass(NatPlan([], false, Option.None))
  }

  // ---------------------------------------------------------------------------
  // interfaces_edit: the batch

  /** The set commands in the order the handler collects them. */
  function EditSets(base: Path, description: Option<string>, address: string, zoneAdd: seq<Path>,
                    natSets: seq<Path>, serviceSets: seq<Path>): seq<Path>
  {
    (if Truthy(description) then [base + ["description", description.value]] else [])
    + (if address != "" then [base + ["address", address]] else [])
    + zoneAdd + natSets + serviceSets
  }

  /** The one configure_multiple_op batch: DHCP/DNS deletes, then the NAT-rule delete, then the sets. */
  function EditOps(deletes: seq<Path>, natDelete: Option<int>, sets: seq<Path>): seq<Op>
  {
    Deletes(Dedupe(deletes))
    + (if natDelete.Some? then [Delete(ManagedNat.Root(natDelete.value))] else [])
    + Sets(Dedupe(sets))
  }

  predicate AddressChanged(previous: Option<string>, address: string, mode: string)
  {
    Truthy(previous) && previous.value != address && mode == "static"
  }

  /** zone_name or the sanitised initial zone. */
  function UpdatedZone(zoneName: string, initial: Option<string>): Option<string>
  {
    if zoneName != "" then Some(zoneName)
    else if initial.Some? && initial.value != "" then Some(SanitiseZoneName(initial.value))
    else Option.None
  }

  /**
   * What the device supplies: the zone configuration, the address the
   * interface had, the NAT source rules, the DHCP/DNS paths an address change
   * deletes and sets, and its answers to the zone delete, the batch and the
   * reorder of managed NAT rules.
   */
  datatype EditDevice = EditDevice(zoneConfig: Entries, previousAddress: Option<string>, natRules: IfaceUtils.RuleMap,
                                   serviceDeletes: seq<Path>, serviceSets: seq<Path>,
                                   zoneResp: Response, batchResp: Response, reorderOk: bool, reorderError: string)

  /** The JSON answer: status, error message, the NAT rule number and the zone reported. */
  datatype EditReply = EditReply(status: int, message: Option<string>, natRule: Option<int>, zone: Option<string>)

  /** The calls made, in order, whether the managed NAT rules were reordered, and the answer. */
  datatype EditRun = EditRun(calls: seq<Call>, reordered: bool, reply: EditReply)

  function Failed(status: int, message: string): EditReply
  {
    EditReply(status, Some(message), Option.None, Option.None)
  }

  /** The interface's existing NAT rule, as the edit looks it up. */
  function ExistingRuleOf(iface: string, req: EditRequest, edit: Edit, c: ManagedNat.NatConstants, dev: EditDevice)
    : Option<int>
  {
    var candidate := if edit.mode == "static" then LoadCidrNetwork(Some(edit.address)) else Option.None;
    ExistingRule(c, dev.natRules, IfaceKey(iface), req.natRule, candidate, LoadCidrNetwork(dev.previousAddress))
  }

  function NatPlanOf(iface: string, req: EditRequest, edit: Edit, c: ManagedNat.NatConstants, dev: EditDevice)
    : Checked<NatPlan>
  {
    PlanNat(c, dev.natRules, IfaceKey(iface), edit, ExistingRuleOf(iface, req, edit, c, dev))
  }

  function ZonePlanOf(iface: string, req: EditRequest, edit: Edit, dev: EditDevice): ZonePlan
  {
    PlanZone(req.zone, edit.zoneName, InitialZone(iface, dev.zoneConfig), IfaceKey(iface), dev.zoneConfig)
  }

  /** The batch call, then the reorder of managed NAT rules after a NAT-rule delete. */
  function SendBatch(calls: seq<Call>, ops: seq<Op>, deleteRule: bool, done: EditReply, dev: EditDevice): (r: EditRun)
    requires done.status == 200
    ensures r.calls == calls + [MultiCall(ops)]
    ensures r.reply.status == 200 || r.reply.status == 500
    ensures r.reordered ==> deleteRule
  {
    var sent := calls + [MultiCall(ops)];
    if dev.batchResp.error != "" then EditRun(sent, false, Failed(500, BatchErrorMessage(dev.batchResp.error)))
    else if dev.batchResp.status != 200 then EditRun(sent, false, Failed(500, BatchStatusMessage(dev.batchResp.status)))
    else if deleteRule && !dev.reorderOk then EditRun(sent, true, Failed(500, dev.reorderError))
    else EditRun(sent, deleteRule, done)
  }

  /** The NAT checks, then the batch; the zone reported is the one the edit leaves the interface in. */
  function EditBatch(base: Path, req: EditRequest, edit: Edit, dev: EditDevice, calls: seq<Call>, zoneAdd: seq<Path>,
                     existing: Option<int>, planned: Checked<NatPlan>, zoneReply: Option<string>): (r: EditRun)
    ensures BatchAfter(r.calls, calls)
    ensures planned.Refuse? ==> r == EditRun(calls, false, Failed(planned.code, planned.message))
    ensures planned.Pass? ==> r.reply.status == 200 || r.reply.status == 500
  {
    match planned
    case Refuse(code, message) => EditRun(calls, false, Failed(code, message))
    case Pass(natPlan) =>
      var changed := AddressChanged(dev.previousAddress, edit.address, edit.mode);
      var sets := EditSets(base, req.description, edit.address, zoneAdd, natPlan.sets,
                           if changed then dev.serviceSets else []);
      var natDelete := if natPlan.deleteRule then existing else Option.None;
      var ops := EditOps(if changed then dev.serviceDeletes else [], natDelete, sets);
      var done := EditReply(200, Option.None, natPlan.applied, zoneReply);
      if ops == [] then EditRun(calls, false, done)
      else SendBatch(calls, ops, natPlan.deleteRule, done, dev)
  }

  /** The address delete the edit makes first (its result is ignored). */
  function AddressCalls(base: Path, edit: Edit): seq<Call>
  {
    if edit.address != "" then [DeleteCall([base + ["address"]])] else []
  }

  /** The zone-membership delete, when the plan removes a membership. */
  function ZoneCalls(zone: ZonePlan): seq<Call>
  {
    if zone.remove == [] then [] else [DeleteCall(Dedupe(zone.remove))]
  }

  /** The calls are `head` followed by at most one batch. */
  predicate BatchAfter(calls: seq<Call>, head: seq<Call>)
  {
    |head| <= |calls| <= |head| + 1 && calls[..|head|] == head && (|calls| > |head| ==> calls[|head|].MultiCall?)
  }

  /** From the first call on: the address delete, the zone-membership delete, then the NAT checks and the batch. */
  function EditChanges(base: Path, req: EditRequest, edit: Edit, dev: EditDevice, zone: ZonePlan,
                       existing: Option<int>, planned: Checked<NatPlan>, zoneReply: Option<string>): (r: EditRun)
    ensures BatchAfter(r.calls, AddressCalls(base, edit) + ZoneCalls(zone))
    ensures r.reply.status != 200 && r.reply.status != 500 ==> planned.Refuse?
    ensures planned.Refuse? && (zone.remove == [] || dev.zoneResp == Response(200, "")) ==>
      r.reply == Failed(planned.code, planned.message)
  {
    var calls := AddressCalls(base, edit);
    if zone.remove == [] then EditBatch(base, req, edit, dev, calls, zone.add, existing, planned, zoneReply)
    else
      var removed := calls + [DeleteCall(Dedupe(zone.remove))];
      if dev.zoneResp.error != "" then EditRun(removed, false, Failed(500, dev.zoneResp.error))
      else if dev.zoneResp.status != 200 then EditRun(removed, false, Failed(500, ZoneStatusMessage(dev.zoneResp.status)))
      else EditBatch(base, req, edit, dev, removed, zone.add, existing, planned, zoneReply)
  }

  /** The changes of an edit that passed its checks, with the plans made from what the device holds. */
  function Changes(iface: string, base: Path, req: EditRequest, edit: Edit, c: ManagedNat.NatConstants,
                   dev: EditDevice): EditRun
  {
    EditChanges(base, req, edit, dev, ZonePlanOf(iface, req, edit, dev), ExistingRuleOf(iface, req, edit, c, dev),
                NatPlanOf(iface, req, edit, c, dev), UpdatedZone(edit.zoneName, InitialZone(iface, dev.zoneConfig)))
  }

  /** The handler after its request checks: the zone check, the interface's path, then the changes. */
  function EditAfterChecks(iface: string, checked: Checked<Edit>, req: EditRequest, c: ManagedNat.NatConstants,
                           dev: EditDevice): (r: EditRun)
    ensures checked.Refuse? ==> r == EditRun([], false, Failed(checked.code, checked.message))
    ensures checked.Pass? && LeavesZoneEmpty(iface, req.zone, dev.zoneConfig) ==>
      r == EditRun([], false, Failed(400, RetainMessage(InitialKey(InitialZone(iface, dev.zoneConfig)))))
    ensures checked.Pass? && !LeavesZoneEmpty(iface, req.zone, dev.zoneConfig) && BasePath(iface).Some? ==>
      r == Changes(iface, BasePath(iface).value, req, checked.value, c, dev)
    ensures r.calls != [] ==> checked.Pass? && !LeavesZoneEmpty(iface, req.zone, dev.zoneConfig) && BasePath(iface).Some?
  {
    match checked
    case Refuse(code, message) => EditRun([], false, Failed(code, message))
    case Pass(edit) =>
      if LeavesZoneEmpty(iface, req.zone, dev.zoneConfig) then
        EditRun([], false, Failed(400, RetainMessage(InitialKey(InitialZone(iface, dev.zoneConfig)))))
      else
        match BasePath(iface)
        case None => EditRun([], false, EditReply(500, Option.None, Option.None, Option.None))
        case Some(base) => Changes(iface, base, req, edit, c, dev)
  }

  /** interfaces_edit as written. */
  function InterfacesEdit(iface: string, req: EditRequest, detail: string, c: ManagedNat.NatConstants,
                          dev: EditDevice): (r: EditRun)
    ensures ValidateEdit(req, detail).Refuse? ==> r.calls == [] && r.reply.status == 400
    ensures ValidateEdit(req, detail).Pass? && LeavesZoneEmpty(iface, req.zone, dev.zoneConfig) ==>
      r == EditRun([], false, Failed(400, RetainMessage(InitialKey(InitialZone(iface, dev.zoneConfig)))))
    ensures r.reply.status == 200 ==>
      KnownMode(ModeOf(req.mode, "")) && !LeavesZoneEmpty(iface, req.zone, dev.zoneConfig)
  {
    EditAfterChecks(iface, ValidateEdit(req, detail), req, c, dev)
  }

  /** interfaces_edit with every refusal made before the first change. */
  function InterfacesEditFixed(iface: string, req: EditRequest, detail: string, c: ManagedNat.NatConstants,
                               dev: EditDevice): EditRun
  {
    EditAfterChecks(iface, ValidateEditFixed(req, detail), req, c, dev)
  }

  // ---------------------------------------------------------------------------
  // interfaces_edit: what it promises

  /** Past the address delete, the only delete call of the changes is the planned membership delete. */
  lemma ChangesDeleteOnlyPlanned(calls: seq<Call>, address: seq<Call>, zone: ZonePlan, target: Call)
    requires BatchAfter(calls, address + ZoneCalls(zone))
    requires target in calls && target.DeleteCall? && target !in address
    ensures zone.remove != [] && target == DeleteCall(Dedupe(zone.remove))
  {
    var head := address + ZoneCalls(zone);
    var k :| 0 <= k < |calls| && calls[k] == target;
    assert k < |head|;
    assert head[k] == target;
  }

  /** An edit that makes any call passed its checks and made the changes. */
  lemma EditMadeChanges(iface: string, req: EditRequest, detail: string, c: ManagedNat.NatConstants, dev: EditDevice,
                        call: Call)
    requires call in InterfacesEdit(iface, req, detail, c, dev).calls
    ensures ValidateEdit(req, detail).Pass? && !LeavesZoneEmpty(iface, req.zone, dev.zoneConfig) && BasePath(iface).Some?
    ensures ValidateEdit(req, detail).value.zoneName == ZoneNameOf(req.zone)
    ensures BasePath(iface).value != [] && BasePath(iface).value[0] == "interfaces"
    ensures call in Changes(iface, BasePath(iface).value, req, ValidateEdit(req, detail).value, c, dev).calls
  {
  }

  /** The membership delete of the changes is the planned one. */
  lemma ChangesRemovePlanned(iface: string, base: Path, req: EditRequest, edit: Edit, c: ManagedNat.NatConstants,
                             dev: EditDevice, target: Call)
    requires target in Changes(iface, base, req, edit, c, dev).calls && target.DeleteCall?
    requires target != DeleteCall([base + ["address"]])
    ensures ZonePlanOf(iface, req, edit, dev).remove != [] && target == DeleteCall(Dedupe(ZonePlanOf(iface, req, edit, dev).remove))
  {
    ChangesDeleteOnlyPlanned(Changes(iface, base, req, edit, c, dev).calls, AddressCalls(base, edit),
                             ZonePlanOf(iface, req, edit, dev), target);
  }

  /**
   * Taking the interface out of `zone` is allowed: it is the zone the
   * interface is in, the request moves it elsewhere or unassigns it, and the
   * zone keeps another interface.
   */
  predicate RemovalAllowed(iface: string, zoneField: Option<string>, config: Entries, zone: string)
  {
    var initialKey := InitialKey(InitialZone(iface, config));
    initialKey == SanitiseZoneName(zone) &&
    WillRemove(zoneField, ZoneNameOf(zoneField), initialKey) &&
    HasOtherMembers(SanitisedMembership(ZoneMembership(config)), initialKey, Lower(IfaceKey(iface)))
  }

  /** The membership delete of an edit's changes takes the interface out of a zone that keeps another interface. */
  lemma ChangesRemoveOnlyFromRetainingZone(iface: string, base: Path, req: EditRequest, edit: Edit,
                                           c: ManagedNat.NatConstants, dev: EditDevice, zone: string)
    requires edit.zoneName == ZoneNameOf(req.zone) && !LeavesZoneEmpty(iface, req.zone, dev.zoneConfig)
    requires base != [] && base[0] == "interfaces"
    requires DeleteCall([MembershipPath(zone, IfaceKey(iface))]) in Changes(iface, base, req, edit, c, dev).calls
    ensures RemovalAllowed(iface, req.zone, dev.zoneConfig, zone)
  {
    var key := IfaceKey(iface);
    var target := DeleteCall([MembershipPath(zone, key)]);
    assert MembershipPath(zone, key)[0] != (base + ["address"])[0];
    ChangesRemovePlanned(iface, base, req, edit, c, dev, target);
    MembershipRemoval(req.zone, edit.zoneName, InitialZone(iface, dev.zoneConfig), key, dev.zoneConfig, zone);
  }

  /** The zone-membership delete the edit makes, if any, takes the interface out of a zone that keeps another interface. */
  lemma EditRemovesOnlyFromRetainingZone(iface: string, req: EditRequest, detail: string, c: ManagedNat.NatConstants,
                                         dev: EditDevice, zone: string)
    requires DeleteCall([MembershipPath(zone, IfaceKey(iface))]) in InterfacesEdit(iface, req, detail, c, dev).calls
    ensures RemovalAllowed(iface, req.zone, dev.zoneConfig, zone)
  {
    EditMadeChanges(iface, req, detail, c, dev, DeleteCall([MembershipPath(zone, IfaceKey(iface))]));
    ChangesRemoveOnlyFromRetainingZone(iface, BasePath(iface).value, req, ValidateEdit(req, detail).value, c, dev, zone);
  }

  /** A planned membership delete that names `zone` takes the interface out of that zone. */
  lemma MembershipRemoval(zoneField: Option<string>, zoneName: string, initial: Option<string>, key: string,
                          config: Entries, zone: string)
    requires PlanZone(zoneField, zoneName, initial, key, config).remove != []
    requires [MembershipPath(zone, key)] == Dedupe(PlanZone(zoneField, zoneName, initial, key, config).remove)
    ensures InitialKey(initial) == SanitiseZoneName(zone) && WillRemove(zoneField, zoneName, InitialKey(initial))
  {
    var plan := PlanZone(zoneField, zoneName, initial, key, config);
    PlanZoneRemovesOnlyWhenLeaving(zoneField, zoneName, initial, key, config);
    DedupeOfDistinct(plan.remove);
    assert MembershipPath(zone, key)[2] == MembershipPath(initial.value, key)[2];
  }

  /** The delete paths of the batch: the de-duplicated DHCP/DNS deletes, then the NAT rule. */
  function DeletePaths(deletes: seq<Path>, natDelete: Option<int>): seq<Path>
  {
    Dedupe(deletes) + (if natDelete.Some? then [ManagedNat.Root(natDelete.value)] else [])
  }

  lemma EditOpsShape(deletes: seq<Path>, natDelete: Option<int>, sets: seq<Path>)
    ensures EditOps(deletes, natDelete, sets) == Deletes(DeletePaths(deletes, natDelete)) + Sets(Dedupe(sets))
  {
    var ds := DeletePaths(deletes, natDelete);
    assert Deletes(ds) == Deletes(Dedupe(deletes)) + (if natDelete.Some? then [Delete(ManagedNat.Root(natDelete.value))] else []);
  }

  /**
   * The batch deletes before it sets, the NAT-rule delete follows the DHCP
   * and DNS deletes, and each delete and each set path appears exactly when
   * the handler collected it.
   */
  lemma EditOpsOrder(deletes: seq<Path>, natDelete: Option<int>, sets: seq<Path>)
    ensures DeletesFirst(EditOps(deletes, natDelete, sets))
    ensures forall p :: Set(p) in EditOps(deletes, natDelete, sets) <==> p in sets
    ensures forall p :: Delete(p) in EditOps(deletes, natDelete, sets) <==>
      p in deletes || (natDelete.Some? && p == ManagedNat.Root(natDelete.value))
    ensures natDelete.Some? ==>
      |Dedupe(deletes)| < |EditOps(deletes, natDelete, sets)| &&
      EditOps(deletes, natDelete, sets)[|Dedupe(deletes)|] == Delete(ManagedNat.Root(natDelete.value))
  {
    var ds, ss := DeletePaths(deletes, natDelete), Dedupe(sets);
    EditOpsShape(deletes, natDelete, sets);
    DeletesThenSetsOrdered(ds, ss);
    forall p ensures Set(p) in Deletes(ds) + Sets(ss) <==> p in ss
    ensures Delete(p) in Deletes(ds) + Sets(ss) <==> p in ds {
      OpsMembership(ds, ss, p);
    }
    if natDelete.Some? {
      assert ds[|Dedupe(deletes)|] == ManagedNat.Root(natDelete.value);
    }
  }

  /** A delete-then-set batch holds exactly the deletes and the sets of its two lists. */
  lemma OpsMembership(ds: seq<Path>, ss: seq<Path>, p: Path)
    ensures Set(p) in Deletes(ds) + Sets(ss) <==> p in ss
    ensures Delete(p) in Deletes(ds) + Sets(ss) <==> p in ds
  {
    var ops := Deletes(ds) + Sets(ss);
    if Set(p) in ops {
      var i :| 0 <= i < |ops| && ops[i] == Set(p);
      assert i >= |ds|;
      assert ops[i] == Set(ss[i - |ds|]);
    }
    if p in ss {
      var j :| 0 <= j < |ss| && ss[j] == p;
      assert ops[|ds| + j] == Set(p);
    }
    if Delete(p) in ops {
      var i :| 0 <= i < |ops| && ops[i] == Delete(p);
      assert i < |ds|;
      assert ops[i] == Delete(ds[i]);
    }
    if p in ds {
      var j :| 0 <= j < |ds| && ds[j] == p;
      assert ops[j] == Delete(p);
    }
  }

  lemma DeletesStep(ps: seq<Path>, i: int)
    requires 0 <= i < |ps|
    ensures Deletes(ps[..i + 1]) == Deletes(ps[..i]) + [Delete(ps[i])]
  {
    assert Deletes(ps[..i + 1])[i] == Delete(ps[i]);
  }

  lemma SetsStep(ps: seq<Path>, i: int)
    requires 0 <= i < |ps|
    ensures Sets(ps[..i + 1]) == Sets(ps[..i]) + [Set(ps[i])]
  {
    assert Sets(ps[..i + 1])[i] == Set(ps[i]);
  }

  /**
   * The operations the handler appends one by one: the de-duplicated DHCP
   * and DNS deletes, the NAT-rule delete, then the de-duplicated sets.
   */
  method CollectOperations(deletes: seq<Path>, natDelete: Option<int>, sets: seq<Path>) returns (operations: seq<Op>)
    ensures operations == EditOps(deletes, natDelete, sets)
  {
    operations := [];
    var deletePaths := DedupeCommands(deletes);
    for i := 0 to |deletePaths|
      invariant operations == Deletes(deletePaths[..i])
    {
      DeletesStep(deletePaths, i);
      operations := operations + [Delete(deletePaths[i])];
    }
    assert deletePaths[..|deletePaths|] == deletePaths;
    if natDelete.Some? {
      operations := operations + [Delete(ManagedNat.Root(natDelete.value))];
    }
    var head := operations;
    var setPaths := DedupeCommands(sets);
    for i := 0 to |setPaths|
      invariant operations == head + Sets(setPaths[..i])
    {
      SetsStep(setPaths, i);
      AppendAssoc(head, Sets(setPaths[..i]), [Set(setPaths[i])]);
      operations := operations + [Set(setPaths[i])];
    }
    assert setPaths[..|setPaths|] == setPaths;
  }

  /** A DHCP-mode request naming an ethernet source-NAT interface passes the request checks. */
  lemma DhcpSourceNatPassesChecks(req: EditRequest, detail: string)
    requires ModeOf(req.mode, "") == "dhcp" && !ZoneUnusable(req.zone)
    requires Strip(Or(req.sourceNat, "")) != "" && StartsWith(Strip(Or(req.sourceNat, "")), "eth")
    ensures ValidateEdit(req, detail) == Pass(Edit("dhcp", "dhcp", ZoneNameOf(req.zone), Strip(Or(req.sourceNat, ""))))
  {
  }

  /**
   * Finding: the source-NAT mode test comes after the changes. A DHCP-mode
   * edit that names an ethernet source-NAT interface passes every request
   * check, so the handler deletes the interface's address (and makes any
   * zone-membership delete) before it refuses with "Source NAT requires a
   * static address".
   */
  lemma DhcpSourceNatRefusedAfterChanges(iface: string, req: EditRequest, detail: string, c: ManagedNat.NatConstants,
                                         dev: EditDevice)
    requires ModeOf(req.mode, "") == "dhcp" && !ZoneUnusable(req.zone)
    requires Strip(Or(req.sourceNat, "")) != "" && StartsWith(Strip(Or(req.sourceNat, "")), "eth")
    requires !LeavesZoneEmpty(iface, req.zone, dev.zoneConfig) && BasePath(iface).Some?
    requires dev.zoneResp == Response(200, "")
    ensures var r := InterfacesEdit(iface, req, detail, c, dev);
      r.reply == Failed(400, NatNeedsStatic) && r.calls != [] &&
      r.calls[0] == DeleteCall([BasePath(iface).value + ["address"]])
  {
    DhcpSourceNatPassesChecks(req, detail);
    var edit := ValidateEdit(req, detail).value;
    var base := BasePath(iface).value;
    var planned := NatPlanOf(iface, req, edit, c, dev);
    assert planned == Refuse(400, NatNeedsStatic);
    var r := EditChanges(base, req, edit, dev, ZonePlanOf(iface, req, edit, dev), ExistingRuleOf(iface, req, edit, c, dev),
                         planned, UpdatedZone(edit.zoneName, InitialZone(iface, dev.zoneConfig)));
    assert InterfacesEdit(iface, req, detail, c, dev) == r;
    assert r.calls[0] == (AddressCalls(base, edit) + ZoneCalls(ZonePlanOf(iface, req, edit, dev)))[0];
  }

  /** After the corrected checks the NAT plan cannot be refused. */
  lemma FixedNatPlanPasses(iface: string, req: EditRequest, detail: string, edit: Edit, c: ManagedNat.NatConstants,
                           dev: EditDevice)
    requires ValidateEditFixed(req, detail) == Pass(edit)
    ensures NatPlanOf(iface, req, edit, c, dev).Pass?
  {
    if edit.sourceNat != "" {
      PrefixValidLoads(edit.address, detail);
    }
  }

  /** With the corrected checks every 400 answer comes before the first call. */
  lemma FixedRefusesBeforeChanges(iface: string, req: EditRequest, detail: string, c: ManagedNat.NatConstants,
                                  dev: EditDevice)
    ensures var r := InterfacesEditFixed(iface, req, detail, c, dev);
      r.reply.status == 400 ==> r.calls == []
    ensures ValidateEdit(req, detail).Pass? && ValidateEdit(req, detail).value.mode == "dhcp" &&
            ValidateEdit(req, detail).value.sourceNat != "" ==>
      InterfacesEditFixed(iface, req, detail, c, dev) == EditRun([], false, Failed(400, NatNeedsStatic))
  {
    var checked := ValidateEditFixed(req, detail);
    if checked.Pass? && !LeavesZoneEmpty(iface, req.zone, dev.zoneConfig) && BasePath(iface).Some? {
      FixedNatPlanPasses(iface, req, detail, checked.value, c, dev);
    }
  }

  // ---------------------------------------------------------------------------
  // add_interface

  /** The JSON fields add_interface reads; None stands for a missing key or null. */
  datatype AddRequest = AddRequest(iface: Option<string>, description: Option<string>, address: Option<string>,
                                   mode: Option<string>, sourceNat: Option<string>, zone: Option<string>)

  /** The checked request: name, stripped description, the address to set, mode, source-NAT interface, sanitised zone. */
  datatype NewIface = NewIface(name: string, description: string, address: string, mode: string, sourceNat: string,
                               zoneName: string)

  /** The checks add_interface makes on the request alone, before the prefix check. */
  function CheckAddRequest(req: AddRequest): (r: Checked<NewIface>)
    ensures r.Refuse? ==> r.code == 400
    ensures r.Pass? ==>
      r.value.name == Strip(Or(req.iface, "")) && r.value.name != "" && '.' !in r.value.name && '@' !in r.value.name &&
      StartsWith(r.value.name, "eth")
    ensures r.Pass? ==> KnownMode(r.value.mode) && r.value.mode == ModeOf(req.mode, "static")
    ensures r.Pass? && r.value.mode == "dhcp" ==> r.value.address == "dhcp"
    ensures r.Pass? && r.value.mode == "static" ==>
      r.value.address == Strip(Or(req.address, "")) && Ipv4.IsValidCidr(Some(r.value.address))
    ensures r.Pass? && r.value.sourceNat != "" ==> StartsWith(r.value.sourceNat, "eth")
    ensures r.Pass? ==> r.value.zoneName == ZoneNameOf(req.zone)
  {
    var name := Strip(Or(req.iface, ""));
    var address := Strip(Or(req.address, ""));
    var mode := ModeOf(req.mode, "static");
    var sourceNat := Strip(Or(req.sourceNat, ""));
    if name == "" then Refuse(400, IfaceRequired)
    else if '.' in name || '@' in name then Refuse(400, OnlyBaseInterfaces)
    else if !StartsWith(name, "eth") then Refuse(400, IfaceNotEthernet)
    else if !KnownMode(mode) then Refuse(400, ModeInvalid)
    else if sourceNat != "" && !StartsWith(sourceNat, "eth") then Refuse(400, NatNotEthernet)
    else if mode == "static" && address == "" then Refuse(400, StaticNeedsAddress)
    else if mode == "static" && !Ipv4.IsValidCidr(Some(address)) then Refuse(400, AddressNotCidr)
    else
      Pass(NewIface(name, Strip(Or(req.description, "")), if mode == "dhcp" then "dhcp" else address, mode, sourceNat,
                    ZoneNameOf(req.zone)))
  }

  /** The checks after the prefix check: source NAT needs a static address, a usable zone, a new interface. */
  function CheckAddRest(iface: NewIface, zoneField: Option<string>, configured: set<string>): (r: Checked<NewIface>)
    ensures r.Refuse? ==> r.code == 400
    ensures r.Pass? ==> r.value == iface && iface.name !in configured && !ZoneUnusable(zoneField)
    ensures r.Pass? && iface.sourceNat != "" ==> iface.mode == "static"
  {
    if iface.sourceNat != "" && iface.mode != "static" then Refuse(400, NatNeedsStatic)
    else if ZoneUnusable(zoneField) then Refuse(400, ZoneRequired)
    else if iface.name in configured then Refuse(400, AlreadyConfigured(iface.name))
    else Pass(iface)
  }

  /** The network prefix check the current copy adds for a static address. */
  function CheckAddPrefix(iface: NewIface, detail: string): (r: Option<string>)
    ensures r.None? <==> iface.mode != "static" || Ipv4.IsValidNetworkPrefix(Some(iface.address), detail).valid
  {
    if iface.mode == "static" && !Ipv4.IsValidNetworkPrefix(Some(iface.address), detail).valid then
      Some(Ipv4.IsValidNetworkPrefix(Some(iface.address), detail).message.value)
    else Option.None
  }

  /**
   * add_interface's checks, in order. `configured` is the set of interface
   * names the device reports; the current copy also checks the network
   * prefix (`checkPrefix`), the legacy copy does not.
   */
  function CheckAdd(req: AddRequest, detail: string, configured: set<string>, checkPrefix: bool): (r: Checked<NewIface>)
    ensures r.Refuse? ==> r.code == 400
    ensures r.Pass? ==>
      r.value.name == Strip(Or(req.iface, "")) && r.value.name != "" && '.' !in r.value.name && '@' !in r.value.name &&
      StartsWith(r.value.name, "eth") && r.value.name !in configured
    ensures r.Pass? ==> KnownMode(r.value.mode) && r.value.mode == ModeOf(req.mode, "static")
    ensures r.Pass? && r.value.mode == "dhcp" ==> r.value.address == "dhcp"
    ensures r.Pass? && r.value.mode == "static" ==>
      r.value.address == Strip(Or(req.address, "")) && Ipv4.IsValidCidr(Some(r.value.address)) &&
      (checkPrefix ==> Ipv4.IsValidNetworkPrefix(Some(r.value.address), detail).valid)
    ensures r.Pass? && r.value.sourceNat != "" ==> StartsWith(r.value.sourceNat, "eth") && r.value.mode == "static"
    ensures r.Pass? ==> !ZoneUnusable(req.zone) && r.value.zoneName == ZoneNameOf(req.zone)
  {
    match CheckAddRequest(req)
    case Refuse(code, message) => Refuse(code, message)
    case Pass(iface) =>
      var prefixError := if checkPrefix then CheckAddPrefix(iface, detail) else Option.None;
      if prefixError.Some? then Refuse(400, prefixError.value)
      else CheckAddRest(iface, req.zone, configured)
  }

  /**
   * The prefix check only narrows: whatever the current copy accepts the
   * legacy copy accepts in the same form, and a request the legacy copy
   * accepts passes the current one exactly when a static address has an
   * aligned prefix.
   */
  lemma PrefixCheckOnlyNarrows(req: AddRequest, detail: string, configured: set<string>)
    ensures CheckAdd(req, detail, configured, true).Pass? ==>
      CheckAdd(req, detail, configured, false) == CheckAdd(req, detail, configured, true)
    ensures var legacy := CheckAdd(req, detail, configured, false);
      var prefixOk := legacy.Pass? && (legacy.value.mode == "static" ==>
        Ipv4.IsValidNetworkPrefix(Some(legacy.value.address), detail).valid);
      legacy.Pass? ==> (CheckAdd(req, detail, configured, true).Pass? <==> prefixOk)
  {
    var checked := CheckAddRequest(req);
    if checked.Pass? {
      var iface := checked.value;
      var rest := CheckAddRest(iface, req.zone, configured);
      assert CheckAdd(req, detail, configured, false) == rest;
      var prefixError := CheckAddPrefix(iface, detail);
      assert CheckAdd(req, detail, configured, true) == if prefixError.Some? then Refuse(400, prefixError.value) else rest;
    }
  }

  /** _build_base_interface_commands: the interface's path, then its description and address when given. */
  function BuildBaseInterfaceCommands(base: Path, description: string, address: string): (r: seq<Path>)
    ensures r != [] && r[0] == base
    ensures forall p :: p in r ==> HasPrefix(p, base)
    ensures base + ["description", description] in r <==> description != ""
    ensures base + ["address", address] in r <==> address != ""
    ensures |r| == 1 + (if description != "" then 1 else 0) + (if address != "" then 1 else 0)
  {
    [base]
    + (if description != "" then [base + ["description", description]] else [])
    + (if address != "" then [base + ["address", address]] else [])
  }

  /**
   * What add_interface reads and how the device answers: the configured
   * interface names, the DHCP/DNS commands for a static address, the NAT
   * source rules, the zone configuration, and the answer to the set call.
   */
  datatype AddDevice = AddDevice(configured: set<string>, serviceCommands: seq<Path>, natRules: IfaceUtils.RuleMap,
                                 zoneConfig: Entries, setResp: Response)

  /** The zone commands of a new interface: the definition and the membership, when a zone is named. */
  function AddZoneCommands(iface: NewIface, config: Entries): seq<Path>
  {
    if iface.zoneName != "" then
      BuildZoneDefinitionCommands(iface.zoneName, config) + BuildZoneMembershipCommands(iface.zoneName, iface.name)
    else []
  }

  /** The one set batch of a new interface: base, services, NAT rule, zone, de-duplicated. */
  function AddCommands(iface: NewIface, c: ManagedNat.NatConstants, dev: AddDevice): (r: Checked<seq<Path>>)
    ensures r.Refuse? <==> iface.sourceNat != "" && LoadCidrNetwork(Some(iface.address)).None?
    ensures r.Refuse? ==> r == Refuse(400, NoSourceNetwork)
    ensures r.Pass? ==> NoDuplicates(r.value) && r.value != [] && r.value[0] == ["interfaces", "ethernet", iface.name]
    ensures r.Pass? ==> forall p :: p in AddZoneCommands(iface, dev.zoneConfig) ==> p in r.value
  {
    var base := ["interfaces", "ethernet", iface.name];
    var services := if iface.mode == "static" && iface.address != "" then dev.serviceCommands else [];
    var network := LoadCidrNetwork(Some(iface.address));
    if iface.sourceNat != "" && network.None? then Refuse(400, NoSourceNetwork)
    else
      var natCommands := if iface.sourceNat != "" then
        ManagedNat.BuildNatRuleCommands(c, ManagedNat.NextNatRuleNumber(c, dev.natRules), iface.sourceNat,
                                        network.value, iface.name)
      else [];
      var commands := BuildBaseInterfaceCommands(base, iface.description, iface.address) + services + natCommands
                      + AddZoneCommands(iface, dev.zoneConfig);
      DedupeKeepsHead(commands);
      Pass(Dedupe(commands))
  }

  /** Whether the set call was made, the status and the error message. */
  datatype AddReply = AddReply(called: bool, status: int, message: Option<string>)

  /** add_interface: the checks, the batch, then one configure_set call. */
  function AddInterface(req: AddRequest, detail: string, c: ManagedNat.NatConstants, dev: AddDevice, checkPrefix: bool)
    : (r: AddReply)
    ensures r.called <==>
      (CheckAdd(req, detail, dev.configured, checkPrefix).Pass? &&
       AddCommands(CheckAdd(req, detail, dev.configured, checkPrefix).value, c, dev).Pass?)
    ensures r.status == 200 ==> r.called && dev.setResp.error == [] && dev.setResp.status == 200
    ensures r.status == 400 <==> !r.called
  {
    match CheckAdd(req, detail, dev.configured, checkPrefix)
    case Refuse(code, message) => AddReply(false, code, Some(message))
    case Pass(iface) =>
      match AddCommands(iface, c, dev)
      case Refuse(code, message) => AddReply(false, code, Some(message))
      case Pass(commands) =>
        var outcome := ConfigureSet(commands, "interface " + iface.name, dev.setResp);
        if outcome.ok then AddReply(true, 200, Option.None) else AddReply(true, 500, outcome.message)
  }

  /** With the prefix check a source-NAT interface always has a network, so the current copy never refuses after its checks. */
  lemma AddNeverLacksNetwork(req: AddRequest, detail: string, c: ManagedNat.NatConstants, dev: AddDevice)
    requires CheckAdd(req, detail, dev.configured, true).Pass?
    ensures AddCommands(CheckAdd(req, detail, dev.configured, true).value, c, dev).Pass?
  {
    var iface := CheckAdd(req, detail, dev.configured, true).value;
    if iface.sourceNat != "" {
      PrefixValidLoads(iface.address, detail);
    }
  }
}
