/**
 * The state of the firewall rule editor page: the rule set being shown, its rules
 * in the order on screen and in the order last received from the router, whether
 * a reorder is staged, the selected zone and the zone lists. Requests to the
 * router are not made here: a method that would fetch returns the name to fetch,
 * and the reply is handed to ApplyPayload.
 */
module FirewallEditor {
  import opened Wrappers
  import opened Text
  import opened Sorting
  import opened JsFirewall
  import opened Reorder

  /** JavaScript truthiness of an optional string. */
  predicate Filled(s: Option<string>)
  {
    s.Some? && s.value != ""
  }

  /** The data of a rule set as the router returns it. */
  datatype Details = Details(rules: Option<seq<RawRule>>, sourceZone: Option<string>, destinationZone: Option<string>)

  /** The source zone named by a rule set's metadata, upper-cased; "" when there is none. */
  function SourceZone(d: Details): string
  {
    Upper(d.sourceZone.GetOr(""))
  }

  function DestinationZone(d: Details): string
  {
    Upper(d.destinationZone.GetOr(""))
  }

  /** The rules of a rule set as the editor holds them. */
  function RulesOf(d: Details): (r: seq<Rule>)
    ensures |r| == |CloneRules(d.rules)|
    ensures forall i :: 0 <= i < |r| ==> r[i].id == r[i].number == NumberText(CloneRules(d.rules)[i])
  {
    MapRules(CloneRules(d.rules))
  }

  function Same(z: string): string { z }

  /** The zone list after a rule set's source zone is shown: the zone is added and the list sorted, if missing. */
  function InsertZone(zones: seq<string>, zone: string): (r: seq<string>)
    ensures zone in r
    ensures zone in zones ==> r == zones
    ensures zone !in zones ==> SortedBy(r, Same, StrLe) && multiset(r) == multiset(zones) + multiset{zone}
  {
    if zone in zones then zones
    else
      StrLeTotal();
      var r := SortBy(zones + [zone], Same, StrLe);
      assert multiset(zones + [zone]) == multiset(zones) + multiset{zone};
      assert zone in multiset(r);
      r
  }

  /** Every zone listed before is still listed. */
  lemma InsertZoneKeeps(zones: seq<string>, zone: string, z: string)
    requires z in zones
    ensures z in InsertZone(zones, zone)
  {
    if zone !in zones {
      assert z in multiset(InsertZone(zones, zone));
    }
  }

  /** The reorder check of updateRulesOrder: same length and the same id at every position. */
  predicate SameIds(a: seq<Rule>, b: seq<Rule>)
  {
    |a| == |b| && forall i :: 0 <= i < |a| ==> a[i].id == b[i].id
  }

  lemma SameIdsIff(a: seq<Rule>, b: seq<Rule>)
    ensures SameIds(a, b) <==> Ids(a) == Ids(b)
  {
    if Ids(a) == Ids(b) {
      assert forall i :: 0 <= i < |a| ==> Ids(a)[i] == a[i].id;
    }
  }

  /** The order sent by submitReorder: the ids of the rules on screen, when a reorder is staged for a named rule set. */
  function ReorderRequest(dirty: bool, name: Option<string>, rules: seq<Rule>): (r: Option<seq<string>>)
    ensures r.Some? <==> dirty && Filled(name)
    ensures r.Some? ==> |r.value| == |rules| && forall i :: 0 <= i < |rules| ==> r.value[i] == rules[i].id
  {
    if dirty && Filled(name) then Some(Ids(rules)) else None
  }

  /** Moving a rule moves its id the same way. */
  lemma IdsMove(s: seq<Rule>, from: nat, to: nat)
    requires from < |s| && to < |s|
    ensures Ids(Move(s, from, to)) == Move(Ids(s), from, to)
  {
    forall i | 0 <= i < |s|
      ensures Ids(Move(s, from, to))[i] == Move(Ids(s), from, to)[i]
    {
      MoveAt(s, from, to, i);
      MoveAt(Ids(s), from, to, i);
    }
  }

  /** The ids after a move are a permutation of the ids before it. */
  lemma IdsMovePermutes(s: seq<Rule>, from: nat, to: nat)
    requires from < |s| && to < |s|
    ensures multiset(Ids(Move(s, from, to))) == multiset(Ids(s))
  {
    IdsMove(s, from, to);
    MovePermutes(Ids(s), from, to);
  }

  /** A staged reorder submits the ids of the rule set's rules, in a new order. */
  lemma SubmittedOrderPermutes(rules: seq<Rule>, baseline: seq<Rule>, name: Option<string>)
    requires multiset(Ids(rules)) == multiset(Ids(baseline)) && !SameIds(rules, baseline) && Filled(name)
    ensures ReorderRequest(true, name, rules).Some?
    ensures multiset(ReorderRequest(true, name, rules).value) == multiset(Ids(baseline))
    ensures ReorderRequest(true, name, rules).value != Ids(baseline)
  {
    SameIdsIff(rules, baseline);
  }

  /** The zone lists of the page: the rule sets under each source zone, and the zones. */
  datatype Zones = Zones(groups: map<string, seq<Pair>>, list: seq<string>)

  /** The zone update of applyFirewallPayload for a rule set whose source zone is `zone`. */
  function FileRuleSet(z: Zones, zone: string, name: string, destination: string): Zones
  {
    Zones(PlacePair(z.groups, zone, name, destination), InsertZone(z.list, zone))
  }

  /**
   * After the update the rule set is listed under its source zone with its
   * destination, and nowhere else; the zone's list is sorted; every other rule
   * set stays listed where it was.
   */
  lemma FileRuleSetPlaces(z: Zones, zone: string, name: string, destination: string)
    ensures var r := FileRuleSet(z, zone, name, destination);
      && zone in r.groups && Pair(name, destination) in r.groups[zone] && PairsSorted(r.groups[zone])
      && (forall g, p :: g in r.groups && p in r.groups[g] && p.name == name ==> g == zone && p == Pair(name, destination))
      && (forall g, p :: g in z.groups && p in z.groups[g] && p.name != name ==> g in r.groups && p in r.groups[g])
  {
    var placed := PlacePair(z.groups, zone, name, destination);
    PlacePairKeeps(z.groups, zone, name, destination);
    forall g: string, p: Pair | g in placed && p in placed[g] && p.name == name
      ensures g == zone && p == Pair(name, destination)
    {
      PlacePairListsOnce(z.groups, zone, name, destination, g, p);
    }
  }

  /** After the update the source zone is listed, and so is every zone listed before. */
  lemma FileRuleSetListsZone(z: Zones, zone: string, name: string, destination: string)
    ensures var r := FileRuleSet(z, zone, name, destination);
      zone in r.list && forall x :: x in z.list ==> x in r.list
  {
    forall x | x in z.list
      ensures x in InsertZone(z.list, zone)
    {
      InsertZoneKeeps(z.list, zone, x);
    }
  }

  /** The pairs listed under a zone; none for a zone without a list. */
  function PairsOf(groups: map<string, seq<Pair>>, zone: string): seq<Pair>
  {
    if zone in groups then groups[zone] else []
  }

  class Editor {
    var rules: seq<Rule>
    var baseline: seq<Rule>
    var orderDirty: bool
    var selectedZone: Option<string>
    var selectedName: Option<string>
    var zones: Zones

    /**
     * The rules on screen are a permutation of the rules received; a reorder is
     * staged exactly when their ids differ in order, and with none staged the two
     * lists are the same.
     */
    ghost predicate Valid()
      reads this
    {
      && multiset(rules) == multiset(baseline)
      && multiset(Ids(rules)) == multiset(Ids(baseline))
      && (orderDirty <==> !SameIds(rules, baseline))
      && (!orderDirty ==> rules == baseline)
    }

    /** The add button is disabled while a reorder is staged or no rule set is selected. */
    predicate AddDisabled()
      reads this
    {
      orderDirty || !Filled(selectedName)
    }

    constructor (initial: Zones, zone: Option<string>, name: Option<string>)
      ensures Valid() && !orderDirty && rules == [] && baseline == []
      ensures zones == initial && selectedZone == zone && selectedName == name
    {
      rules := [];
      baseline := [];
      orderDirty := false;
      selectedZone := zone;
      selectedName := name;
      zones := initial;
    }

    /**
     * applyFirewallPayload: no data clears the rules; data replaces the rules and
     * the baseline, files the rule set under its source zone and selects that zone.
     * Any staged reorder is dropped.
     */
    method ApplyPayload(name: string, payload: Option<Details>)
      modifies this
      ensures Valid() && !orderDirty && rules == baseline
      ensures payload.None? ==> rules == [] && selectedName == old(selectedName) && selectedZone == old(selectedZone)
      ensures payload.None? ==> zones == old(zones)
      ensures payload.Some? ==> rules == RulesOf(payload.value) && selectedName == Some(name)
      ensures payload.Some? ==> (AddDisabled() <==> name == "")
      ensures payload.Some? && SourceZone(payload.value) == "" ==>
        zones == old(zones) && selectedZone == old(selectedZone)
      ensures payload.Some? && SourceZone(payload.value) != "" ==>
        && zones == FileRuleSet(old(zones), SourceZone(payload.value), name, DestinationZone(payload.value))
        && selectedZone == Some(SourceZone(payload.value))
    {
      if payload.None? {
        ClearRules();
      } else {
        LoadRules(name, payload.value);
        FileUnderZone(name, SourceZone(payload.value), DestinationZone(payload.value));
      }
    }

    method ClearRules()
      modifies this
      ensures Valid() && !orderDirty && rules == [] && baseline == []
      ensures selectedName == old(selectedName) && selectedZone == old(selectedZone)
      ensures zones == old(zones)
    {
      rules := [];
      baseline := [];
      orderDirty := false;
    }

    method LoadRules(name: string, details: Details)
      modifies this
      ensures Valid() && !orderDirty && rules == baseline == RulesOf(details) && selectedName == Some(name)
      ensures selectedZone == old(selectedZone) && zones == old(zones)
    {
      selectedName := Some(name);
      rules := RulesOf(details);
      baseline := rules;
      orderDirty := false;
    }

    /** The zone update: the rule set is filed under its source zone, which becomes the selected zone. */
    method FileUnderZone(name: string, zone: string, destination: string)
      modifies this
      ensures rules == old(rules) && baseline == old(baseline) && orderDirty == old(orderDirty)
      ensures selectedName == old(selectedName)
      ensures zone == "" ==> zones == old(zones) && selectedZone == old(selectedZone)
      ensures zone != "" ==> zones == FileRuleSet(old(zones), zone, name, destination) && selectedZone == Some(zone)
    {
      if zone != "" {
        zones := FileRuleSet(zones, zone, name, destination);
        selectedZone := Some(zone);
      }
    }

    /**
     * updateRulesOrder: an order with the baseline's ids puts the baseline back
     * and clears the staged reorder; any other order is staged.
     */
    method UpdateRulesOrder(newOrder: seq<Rule>)
      requires Valid() && multiset(newOrder) == multiset(baseline) && multiset(Ids(newOrder)) == multiset(Ids(baseline))
      modifies this
      ensures Valid()
      ensures baseline == old(baseline) && selectedName == old(selectedName) && selectedZone == old(selectedZone)
      ensures zones == old(zones)
      ensures SameIds(newOrder, baseline) ==> rules == baseline && !orderDirty
      ensures !SameIds(newOrder, baseline) ==> rules == newOrder && orderDirty
    {
      if SameIds(newOrder, baseline) {
        rules := baseline;
        orderDirty := false;
      } else {
        rules := newOrder;
        orderDirty := true;
      }
    }

    /**
     * The drop handler: without a dragged row, on an unreadable target index or
     * on the dragged row itself nothing happens; otherwise the dragged rule is
     * moved in front of the target and the new order goes to UpdateRulesOrder.
     */
    method Drop(dragIndex: Option<nat>, target: Option<nat>)
      requires Valid()
      requires dragIndex.Some? ==> dragIndex.value < |rules|
      requires target.Some? ==> target.value < |rules|
      modifies this
      ensures Valid()
      ensures baseline == old(baseline) && selectedName == old(selectedName) && selectedZone == old(selectedZone)
      ensures zones == old(zones)
      ensures dragIndex.None? || target.None? || target == dragIndex ==>
        rules == old(rules) && orderDirty == old(orderDirty)
      ensures dragIndex.Some? && target.Some? && target != dragIndex ==>
        var moved := Move(old(rules), dragIndex.value, target.value);
        && (SameIds(moved, baseline) ==> rules == baseline && !orderDirty)
        && (!SameIds(moved, baseline) ==> rules == moved && orderDirty)
    {
      if dragIndex.None? || target.None? || target == dragIndex {
        return;
      }
      var newOrder := Move(rules, dragIndex.value, target.value);
      MovePermutes(rules, dragIndex.value, target.value);
      IdsMovePermutes(rules, dragIndex.value, target.value);
      UpdateRulesOrder(newOrder);
    }

    /** cancelReorder: the rules go back to the order last received. */
    method CancelReorder()
      requires Valid()
      modifies this
      ensures Valid() && !orderDirty
      ensures rules == old(baseline) && baseline == old(baseline)
      ensures selectedName == old(selectedName) && selectedZone == old(selectedZone)
      ensures zones == old(zones)
    {
      if !orderDirty {
        return;
      }
      rules := baseline;
      orderDirty := false;
    }

    /**
     * submitReorder: with a reorder staged for a selected rule set, sends the ids
     * on screen and applies the router's reply (None when the request failed, which
     * changes nothing; an empty reply clears the rules and the staging; a reply with
     * rules loads them and files the rule set under its zone); otherwise sends nothing.
     */
    method SubmitReorder(reply: Option<Option<Details>>) returns (order: Option<seq<string>>)
      requires Valid()
      modifies this
      ensures Valid()
      ensures order == ReorderRequest(old(orderDirty), old(selectedName), old(rules))
      ensures order.Some? ==> multiset(order.value) == multiset(Ids(old(baseline))) && order.value != Ids(old(baseline))
      ensures order.None? || reply.None? ==> rules == old(rules) && orderDirty == old(orderDirty) && baseline == old(baseline)
      ensures order.None? || reply.None? ==>
        selectedName == old(selectedName) && selectedZone == old(selectedZone) && zones == old(zones)
      ensures order.Some? && reply.Some? ==> !orderDirty && rules == baseline && selectedName == old(selectedName)
      ensures order.Some? && reply == Some(None) ==>
        rules == [] && selectedZone == old(selectedZone) && zones == old(zones)
      ensures order.Some? && reply.Some? && reply.value.Some? ==> rules == RulesOf(reply.value.value)
      ensures order.Some? && reply.Some? && reply.value.Some? && SourceZone(reply.value.value) == "" ==>
        zones == old(zones) && selectedZone == old(selectedZone)
      ensures order.Some? && reply.Some? && reply.value.Some? && SourceZone(reply.value.value) != "" ==>
        && zones == FileRuleSet(old(zones), SourceZone(reply.value.value), old(selectedName).value,
                                DestinationZone(reply.value.value))
        && selectedZone == Some(SourceZone(reply.value.value))
    {
      order := ReorderRequest(orderDirty, selectedName, rules);
      if order.None? {
        return;
      }
      SubmittedOrderPermutes(rules, baseline, selectedName);
      if reply.Some? {
        ApplyPayload(selectedName.value, reply.value);
      }
    }

    /**
     * selectZone: an empty zone is ignored; otherwise the zone is selected, the
     * selected rule set kept if the zone lists it, else the zone's first one, and
     * its rules are fetched; a zone without rule sets clears the rules.
     */
    method SelectZone(zone: Option<string>) returns (fetch: Option<string>)
      requires Valid()
      modifies this
      ensures Valid()
      ensures zones == old(zones)
      ensures Upper(zone.GetOr("")) == "" ==>
        fetch.None? && rules == old(rules) && baseline == old(baseline) && orderDirty == old(orderDirty)
        && selectedZone == old(selectedZone) && selectedName == old(selectedName)
      ensures Upper(zone.GetOr("")) != "" ==>
        && selectedZone == Some(Upper(zone.GetOr("")))
        && selectedName == SelectTarget(old(selectedName), PairsOf(old(zones).groups, Upper(zone.GetOr(""))))
        && (fetch.Some? <==> Filled(selectedName))
        && (fetch.Some? ==> fetch == selectedName && rules == old(rules) && orderDirty == old(orderDirty))
        && (fetch.None? ==> rules == [] && baseline == [] && !orderDirty)
    {
      var key := Upper(zone.GetOr(""));
      if key == "" {
        return None;
      }
      var pairs := PairsOf(zones.groups, key);
      selectedZone := Some(key);
      var target := SelectTarget(selectedName, pairs);
      selectedName := target;
      if Filled(target) {
        fetch := target;
      } else {
        rules := [];
        baseline := [];
        orderDirty := false;
        fetch := None;
      }
    }

    /** A click on a zone: refused while a reorder is staged. */
    method ClickZone(zone: Option<string>) returns (fetch: Option<string>)
      requires Valid()
      modifies this
      ensures Valid()
      ensures old(orderDirty) ==>
        fetch.None? && rules == old(rules) && orderDirty && selectedZone == old(selectedZone) && selectedName == old(selectedName)
      ensures fetch.Some? ==> !old(orderDirty) && Filled(fetch) && selectedName == fetch
    {
      if orderDirty {
        return None;
      }
      fetch := SelectZone(zone);
    }

    /**
     * A click on a rule set: refused while a reorder is staged or when the button
     * names no rule set; otherwise the rule set (and its zone, when the button
     * names one) is selected and its rules are fetched.
     */
    method ClickPair(zone: Option<string>, name: Option<string>) returns (fetch: Option<string>)
      requires Valid()
      modifies this
      ensures Valid()
      ensures rules == old(rules) && baseline == old(baseline) && orderDirty == old(orderDirty)
      ensures old(orderDirty) || !Filled(name) ==>
        fetch.None? && selectedZone == old(selectedZone) && selectedName == old(selectedName)
      ensures !old(orderDirty) && Filled(name) ==>
        && fetch == name && selectedName == name
        && selectedZone == (if Upper(zone.GetOr("")) != "" then Some(Upper(zone.GetOr(""))) else old(selectedZone))
    {
      if orderDirty || !Filled(name) {
        return None;
      }
      var key := Upper(zone.GetOr(""));
      if key != "" {
        selectedZone := Some(key);
      }
      selectedName := name;
      fetch := name;
    }
  }

  /** No two rules share an id. */
  predicate DistinctIds(rules: seq<Rule>)
  {
    forall i, j :: 0 <= i < j < |rules| ==> rules[i].id != rules[j].id
  }

  /**
   * Dragging a row away stages a reorder, and dragging it back to where it came
   * from clears it again, leaving the rules as they were.
   */
  method DropAndDropBack(e: Editor, from: nat, to: nat)
    requires e.Valid() && !e.orderDirty && DistinctIds(e.rules)
    requires from < |e.rules| && to < |e.rules| && from != to
    modifies e
    ensures e.Valid() && !e.orderDirty && e.rules == old(e.rules)
  {
    ghost var s := e.rules;
    var moved := Move(s, from, to);
    assert moved[to].id != e.baseline[to].id;
    e.Drop(Some(from), Some(to));
    assert e.orderDirty && e.rules == moved;
    MoveBack(s, from, to);
    e.Drop(Some(to), Some(from));
  }

  /** A drop followed by cancel restores the order last received. */
  method DropThenCancel(e: Editor, from: nat, to: nat)
    requires e.Valid() && from < |e.rules| && to < |e.rules|
    modifies e
    ensures e.Valid() && !e.orderDirty && e.rules == old(e.baseline) && e.baseline == old(e.baseline)
  {
    e.Drop(Some(from), Some(to));
    e.CancelReorder();
  }
}
