/**
 * The NAT page's staged reordering: for source and for destination NAT, the
 * rules in the staged order (pending), the order before the first move of a
 * reorder (original), whether a reorder is staged, and the rows of the table
 * as last drawn; and the rule awaiting deletion. A row's data-index is its
 * position among the rows drawn, and the drop handler hands those indices to
 * the staged order. Requests are not made here: a method that would send one
 * returns what it would send and takes the router's reply, None when the
 * request failed.
 */
module NatStaging {
  import opened Wrappers
  import opened Reorder

  datatype Side = Source | Destination

  /** A NAT rule as the page holds it: its type and its fields. */
  datatype NatRule = NatRule(kind: string, fields: map<string, string>)

  /**
   * An entry of a staged order: a rule, or the `undefined` that the move puts
   * in when the dragged index is past the end of the staged order.
   */
  datatype Slot = Rule(rule: NatRule) | Undefined

  /** The fields sent for each rule when a source order is saved. */
  const SourceFields: seq<string> := ["rule_number", "description", "outbound_interface", "source_address", "translation"]

  /** The fields sent for each rule when a destination order is saved. */
  const DestinationFields: seq<string> :=
    ["rule_number", "description", "inbound_interface", "destination_address", "destination_port",
     "protocol", "translation_address", "translation_port"]

  function FieldsOf(side: Side): seq<string>
  {
    if side == Source then SourceFields else DestinationFields
  }

  /** The `type` value of the rules shown on one side. */
  function KindOf(side: Side): string
  {
    if side == Source then "source" else "destination"
  }

  /** rules.filter(rule => rule.type === kind) */
  function OfKind(rules: seq<NatRule>, kind: string): (r: seq<NatRule>)
    ensures |r| <= |rules|
    ensures forall x :: x in r <==> x in rules && x.kind == kind
  {
    if rules == [] then []
    else (if rules[0].kind == kind then [rules[0]] else []) + OfKind(rules[1..], kind)
  }

  /** The rules of one type keep their relative order. */
  lemma {:induction false} OfKindConcat(a: seq<NatRule>, b: seq<NatRule>, kind: string)
    ensures OfKind(a + b, kind) == OfKind(a, kind) + OfKind(b, kind)
    decreases |a|
  {
    if a == [] {
      assert a + b == b;
    } else {
      assert (a + b)[1..] == a[1..] + b;
      OfKindConcat(a[1..], b, kind);
    }
  }

  /** The rules as staged entries: `[...rules]`. */
  function Slots(rules: seq<NatRule>): (r: seq<Slot>)
    ensures |r| == |rules| && forall i :: 0 <= i < |rules| ==> r[i] == Rule(rules[i])
  {
    seq(|rules|, i requires 0 <= i < |rules| => Rule(rules[i]))
  }

  /** No entry of a staged order is undefined. */
  predicate Defined(s: seq<Slot>)
  {
    forall i :: 0 <= i < |s| ==> s[i].Rule?
  }

  /** The rules of a staged order without undefined entries; Slots gives the order back. */
  function RulesOf(s: seq<Slot>): (r: seq<NatRule>)
    requires Defined(s)
    ensures Slots(r) == s
  {
    seq(|s|, i requires 0 <= i < |s| => s[i].rule)
  }

  lemma RulesOfSlots(rules: seq<NatRule>)
    ensures Defined(Slots(rules)) && RulesOf(Slots(rules)) == rules
  {
  }

  /**
   * handleReorder's `const [moved] = order.splice(from, 1)` and
   * `order.splice(to, 0, moved)` on any indices: an index past the end takes
   * nothing out, so `moved` is undefined, and an insertion index past the end
   * appends.
   */
  function Splice(s: seq<Slot>, from: nat, to: nat): (r: seq<Slot>)
    ensures |r| >= 1
    ensures from < |s| ==> |r| == |s|
    ensures from >= |s| ==> |r| == |s| + 1 && Undefined in r
  {
    if from < |s| then
      var rest := s[..from] + s[from + 1..];
      var at := if to < |rest| then to else |rest|;
      rest[..at] + [s[from]] + rest[at..]
    else
      var at := if to < |s| then to else |s|;
      assert (s[..at] + [Undefined] + s[at..])[at] == Undefined;
      s[..at] + [Undefined] + s[at..]
  }

  /** With both indices inside the staged order, the move is the drag-and-drop move. */
  lemma SpliceInRange(s: seq<Slot>, from: nat, to: nat)
    requires from < |s| && to < |s|
    ensures Splice(s, from, to) == Move(s, from, to)
  {
  }

  lemma SpliceInRangeMultiset(s: seq<Slot>, from: nat, to: nat)
    requires from < |s|
    ensures multiset(Splice(s, from, to)) == multiset(s)
  {
    var rest := s[..from] + s[from + 1..];
    var at := if to < |rest| then to else |rest|;
    assert s == s[..from] + [s[from]] + s[from + 1..];
    assert rest == rest[..at] + rest[at..];
    calc {
      multiset(Splice(s, from, to));
      multiset(rest[..at]) + multiset([s[from]]) + multiset(rest[at..]);
      multiset(rest) + multiset([s[from]]);
      multiset(s);
    }
  }

  lemma SplicePastEndMultiset(s: seq<Slot>, from: nat, to: nat)
    requires from >= |s|
    ensures multiset(Splice(s, from, to)) == multiset(s) + multiset{Undefined}
  {
    var at := if to < |s| then to else |s|;
    assert s == s[..at] + s[at..];
    calc {
      multiset(Splice(s, from, to));
      multiset(s[..at]) + multiset([Undefined]) + multiset(s[at..]);
      multiset(s) + multiset{Undefined};
    }
  }

  /** A move inside an order without undefined entries adds none. */
  lemma SpliceDefined(s: seq<Slot>, from: nat, to: nat)
    requires Defined(s) && from < |s|
    ensures Defined(Splice(s, from, to))
  {
  }

  /** A move keeps the rules of the staged order; at most an undefined entry is added. */
  lemma SpliceKeepsRules(s: seq<Slot>, from: nat, to: nat)
    ensures multiset(Splice(s, from, to))[Undefined := 0] == multiset(s)[Undefined := 0]
  {
    if from < |s| {
      SpliceInRangeMultiset(s, from, to);
    } else {
      SplicePastEndMultiset(s, from, to);
      var m := multiset(s);
      assert (m + multiset{Undefined})[Undefined := 0] == m[Undefined := 0];
    }
  }

  /** Moving rules and then wrapping them is wrapping them and then moving. */
  lemma SlotsMove(rules: seq<NatRule>, from: nat, to: nat)
    requires from < |rules| && to < |rules|
    ensures Slots(Move(rules, from, to)) == Move(Slots(rules), from, to)
  {
    forall i | 0 <= i < |rules|
      ensures Slots(Move(rules, from, to))[i] == Move(Slots(rules), from, to)[i]
    {
      MoveAt(rules, from, to, i);
      MoveAt(Slots(rules), from, to, i);
    }
  }

  /**
   * One rule as sent in a save: the listed fields the rule has; a missing field
   * is undefined and JSON.stringify leaves it out.
   */
  function Project(rule: NatRule, fields: seq<string>): (r: map<string, string>)
    ensures forall f :: f in r <==> f in fields && f in rule.fields
    ensures forall f :: f in r ==> r[f] == rule.fields[f]
  {
    map f | f in fields && f in rule.fields :: rule.fields[f]
  }

  function Projections(rules: seq<NatRule>, fields: seq<string>): (r: seq<map<string, string>>)
    ensures |r| == |rules| && forall i :: 0 <= i < |rules| ==> r[i] == Project(rules[i], fields)
  {
    seq(|rules|, i requires 0 <= i < |rules| => Project(rules[i], fields))
  }

  /** Moving a rule moves its saved form the same way. */
  lemma ProjectionsMove(s: seq<NatRule>, fields: seq<string>, from: nat, to: nat)
    requires from < |s| && to < |s|
    ensures Projections(Move(s, from, to), fields) == Move(Projections(s, fields), from, to)
  {
    forall i | 0 <= i < |s|
      ensures Projections(Move(s, from, to), fields)[i] == Move(Projections(s, fields), from, to)[i]
    {
      MoveAt(s, from, to, i);
      MoveAt(Projections(s, fields), from, to, i);
    }
  }

  /** A save reply: whether the status is "ok", and the rules it returns. */
  datatype Reply = Reply(ok: bool, rules: Option<seq<NatRule>>)

  /**
   * The rows refreshRulesTable draws for one type: none for a missing or empty
   * list, otherwise the rules of that type in the order received.
   */
  function RowsAfterRefresh(rules: Option<seq<NatRule>>, kind: string): seq<NatRule>
  {
    if rules.None? || rules.value == [] then [] else OfKind(rules.value, kind)
  }

  /**
   * The staged order refreshRulesTable leaves for one type: the rules of that
   * type received, unless the list is missing or empty or a reorder is staged.
   */
  function PendingAfterRefresh(pending: seq<Slot>, dirty: bool, rules: Option<seq<NatRule>>, kind: string): seq<Slot>
  {
    if rules.None? || rules.value == [] || dirty then pending else Slots(OfKind(rules.value, kind))
  }

  /**
   * The staged order of one kind of NAT rule, and its table. The source side
   * logs the rule number of every staged entry before and after a move, which
   * throws on an undefined entry; the destination side logs nothing.
   */
  class StagedOrder {
    const logsRules: bool
    var pending: seq<Slot>
    var original: seq<Slot>
    var dirty: bool
    /** The rows of the table as last drawn; a row's data-index is its position here. */
    var shown: seq<NatRule>

    /**
     * The original order has no undefined entry; with a staged reorder, the
     * rules of the staged order are those of the original order, each as
     * often. On a side that does not log, nothing staged means no original
     * order and no undefined entry; on the source side a move that threw can
     * leave an undefined entry and a saved original without staging anything.
     */
    ghost predicate Valid()
      reads this
    {
      && Defined(original)
      && (!logsRules && !dirty ==> original == [] && Defined(pending))
      && (dirty ==> multiset(pending)[Undefined := 0] == multiset(original))
    }

    /** Logging the rule numbers of a staged order does not throw. */
    predicate Logged(s: seq<Slot>)
    {
      !logsRules || Defined(s)
    }

    /** The table shows the staged order. */
    ghost predicate InSync()
      reads this
    {
      pending == Slots(shown)
    }

    constructor (logs: bool, rules: seq<NatRule>, rows: seq<NatRule>)
      ensures Valid() && logsRules == logs
      ensures pending == Slots(rules) && original == [] && !dirty && shown == rows
    {
      logsRules := logs;
      pending := Slots(rules);
      original := [];
      dirty := false;
      shown := rows;
    }

    /**
     * renderTableWithPendingOrder: the table is redrawn from the staged order;
     * with nothing staged, or with an undefined entry (reading its fields
     * throws before the table is replaced), the rows stay as they were.
     */
    method Render()
      modifies this
      ensures pending == old(pending) && original == old(original) && dirty == old(dirty)
      ensures shown == (if pending != [] && Defined(pending) then RulesOf(pending) else old(shown))
    {
      if pending != [] && Defined(pending) {
        shown := RulesOf(pending);
      }
    }

    /**
     * handleReorder for one side. On the source side, logging an order with an
     * undefined entry throws, and nothing changes. Otherwise the first move of
     * a reorder keeps a copy of the order and the entry at `from` is moved to
     * `to`; when logging the new order throws, the reorder is not staged and
     * the table is not redrawn, otherwise the reorder is staged and the table
     * redrawn.
     */
    method Reorder(from: nat, to: nat)
      requires Valid()
      modifies this
      ensures Valid()
      ensures !Logged(old(pending)) ==>
        pending == old(pending) && original == old(original) && dirty == old(dirty) && shown == old(shown)
      ensures Logged(old(pending)) ==>
        && pending == Splice(old(pending), from, to)
        && original == (if old(dirty) then old(original) else old(pending))
        && dirty == (old(dirty) || Logged(pending))
      ensures shown == (if Defined(pending) then RulesOf(pending) else old(shown))
    {
      if !Logged(pending) {
        return;
      }
      if !dirty {
        original := pending;
        assert !logsRules ==> Defined(pending);
        assert forall i :: 0 <= i < |pending| ==> pending[i] != Undefined;
        assert Undefined !in multiset(pending);
      }
      SpliceKeepsRules(pending, from, to);
      pending := Splice(pending, from, to);
      if !Logged(pending) {
        return;
      }
      dirty := true;
      Render();
    }

    /** discardSourceOrder / discardDestOrder: the order before the reorder comes back and is drawn. */
    method Discard()
      requires Valid()
      modifies this
      ensures Valid() && !dirty
      ensures original == (if old(dirty) then [] else old(original))
      ensures pending == (if old(dirty) then old(original) else old(pending))
      ensures shown == (if old(dirty) && old(original) != [] then RulesOf(old(original)) else old(shown))
    {
      if !dirty {
        return;
      }
      pending := original;
      dirty := false;
      original := [];
      Render();
    }

    /**
     * The refresh of one side with a non-empty list: the table is drawn from
     * the rules received; a staged reorder keeps its order, otherwise the
     * rules received become the staged order.
     */
    method Replace(rules: seq<NatRule>)
      requires Valid()
      modifies this
      ensures Valid() && dirty == old(dirty) && original == old(original)
      ensures pending == (if old(dirty) then old(pending) else Slots(rules))
      ensures shown == rules
    {
      if !dirty {
        pending := Slots(rules);
      }
      shown := rules;
    }

    /** The refresh of one side with no rules: the table is emptied, the orders stay. */
    method Clear()
      modifies this
      ensures pending == old(pending) && original == old(original) && dirty == old(dirty)
      ensures shown == []
    {
      shown := [];
    }

    /** A successful save: nothing is staged any more. */
    method Saved()
      requires Defined(pending)
      modifies this
      ensures Valid() && !dirty && original == [] && pending == old(pending) && shown == old(shown)
    {
      dirty := false;
      original := [];
    }
  }

  class NatPage {
    const source: StagedOrder
    const destination: StagedOrder
    var deleteType: Option<string>
    var deleteNumber: Option<string>

    ghost predicate Valid()
      reads this, source, destination
    {
      && source != destination && source.logsRules && !destination.logsRules
      && source.Valid() && destination.Valid()
    }

    function Order(side: Side): StagedOrder
    {
      if side == Source then source else destination
    }

    /**
     * The page as loaded: the rows the server drew, and the initial rules,
     * when there are any, split by type into the staged orders.
     */
    constructor (initial: Option<seq<NatRule>>, rows: seq<NatRule>)
      ensures Valid() && fresh(source) && fresh(destination)
      ensures source.pending == Slots(OfKind(initial.GetOr([]), "source")) && !source.dirty
      ensures destination.pending == Slots(OfKind(initial.GetOr([]), "destination")) && !destination.dirty
      ensures source.shown == OfKind(rows, "source") && destination.shown == OfKind(rows, "destination")
      ensures deleteType.None? && deleteNumber.None?
    {
      var rules := initial.GetOr([]);
      source := new StagedOrder(true, OfKind(rules, "source"), OfKind(rows, "source"));
      destination := new StagedOrder(false, OfKind(rules, "destination"), OfKind(rows, "destination"));
      deleteType := None;
      deleteNumber := None;
    }

    /**
     * The drop handler of one table: without a dragged row of that table, on an
     * unreadable target index or on the dragged row itself nothing happens;
     * otherwise handleReorder moves the staged order by the two row indices
     * (on the source side, a staged order with an undefined entry makes it
     * throw before anything changes, and an undefined entry it creates leaves
     * the reorder unstaged). When the table showed the staged order, the rule
     * on the dragged row lands on the target row and the table still shows the
     * staged order.
     */
    method Drop(side: Side, dragSide: Option<Side>, dragIndex: Option<nat>, target: Option<nat>)
      requires Valid()
      requires dragSide == Some(side) && dragIndex.Some? ==> dragIndex.value < |Order(side).shown|
      requires target.Some? ==> target.value < |Order(side).shown|
      modifies Order(side)
      ensures Valid()
      ensures dragIndex.None? || dragSide != Some(side) || target.None? || target == dragIndex ==>
        && Order(side).pending == old(Order(side).pending) && Order(side).dirty == old(Order(side).dirty)
        && Order(side).shown == old(Order(side).shown)
      ensures dragIndex.Some? && dragSide == Some(side) && target.Some? && target != dragIndex ==>
        && (!Order(side).Logged(old(Order(side).pending)) ==>
              Order(side).pending == old(Order(side).pending) && Order(side).dirty == old(Order(side).dirty))
        && (Order(side).Logged(old(Order(side).pending)) ==>
              && Order(side).pending == Splice(old(Order(side).pending), dragIndex.value, target.value)
              && Order(side).dirty == (old(Order(side).dirty) || Order(side).Logged(Order(side).pending)))
        && Order(side).shown ==
           (if Defined(Order(side).pending) then RulesOf(Order(side).pending) else old(Order(side).shown))
      ensures (dragIndex.Some? && dragSide == Some(side) && target.Some? && target != dragIndex &&
               old(Order(side).pending) == Slots(old(Order(side).shown))) ==>
        && Order(side).shown == Move(old(Order(side).shown), dragIndex.value, target.value)
        && Order(side).InSync() && Order(side).dirty
    {
      if dragIndex.None? || dragSide != Some(side) || target.None? || target == dragIndex {
        return;
      }
      ghost var rows := Order(side).shown;
      ghost var staged := Order(side).pending;
      if staged == Slots(rows) {
        RulesOfSlots(rows);
        SpliceInRange(staged, dragIndex.value, target.value);
        SlotsMove(rows, dragIndex.value, target.value);
        RulesOfSlots(Move(rows, dragIndex.value, target.value));
      }
      Order(side).Reorder(dragIndex.value, target.value);
    }

    /**
     * refreshRulesTable: both tables are drawn from the rules received (empty
     * for a missing or empty list); each side without a staged reorder takes
     * its rules of that type as its staged order, and a side with one keeps it.
     */
    method RefreshRulesTable(rules: Option<seq<NatRule>>)
      requires Valid()
      modifies source, destination
      ensures Valid()
      ensures source.dirty == old(source.dirty) && source.original == old(source.original)
      ensures destination.dirty == old(destination.dirty) && destination.original == old(destination.original)
      ensures source.pending == PendingAfterRefresh(old(source.pending), old(source.dirty), rules, "source")
      ensures destination.pending == PendingAfterRefresh(old(destination.pending), old(destination.dirty), rules, "destination")
      ensures source.shown == RowsAfterRefresh(rules, "source")
      ensures destination.shown == RowsAfterRefresh(rules, "destination")
    {
      if rules.None? || rules.value == [] {
        source.Clear();
        destination.Clear();
        return;
      }
      source.Replace(OfKind(rules.value, "source"));
      destination.Replace(OfKind(rules.value, "destination"));
    }

    /**
     * refreshRulesTable as evidently intended: a side with a staged reorder is
     * drawn from its staged order, and a side without one takes the rules
     * received, none for a missing or empty list. Afterwards every table whose
     * staged order has no undefined entry shows that order.
     */
    method RefreshRulesTableFixed(rules: Option<seq<NatRule>>)
      requires Valid()
      modifies source, destination
      ensures Valid()
      ensures source.dirty == old(source.dirty) && source.original == old(source.original)
      ensures destination.dirty == old(destination.dirty) && destination.original == old(destination.original)
      ensures !source.dirty ==> source.pending == Slots(RowsAfterRefresh(rules, "source"))
      ensures !destination.dirty ==> destination.pending == Slots(RowsAfterRefresh(rules, "destination"))
      ensures source.dirty ==> source.pending == old(source.pending)
      ensures destination.dirty ==> destination.pending == old(destination.pending)
      ensures Defined(source.pending) ==> source.InSync()
      ensures Defined(destination.pending) ==> destination.InSync()
    {
      RefreshSideFixed(source, RowsAfterRefresh(rules, "source"));
      RefreshSideFixed(destination, RowsAfterRefresh(rules, "destination"));
    }

    /** One side of the intended refresh. */
    static method RefreshSideFixed(order: StagedOrder, received: seq<NatRule>)
      requires order.Valid()
      modifies order
      ensures order.Valid() && order.dirty == old(order.dirty) && order.original == old(order.original)
      ensures !order.dirty ==> order.pending == Slots(received)
      ensures order.dirty ==> order.pending == old(order.pending)
      ensures Defined(order.pending) ==> order.InSync()
    {
      if order.dirty {
        if order.pending == [] {
          order.Clear();
        } else {
          order.Render();
        }
      } else {
        order.Replace(received);
      }
    }

    /**
     * saveSourceOrder / saveDestOrder: with a reorder staged and no undefined
     * entry, sends the saved form of every rule in the staged order (with an
     * undefined entry, building the saved forms throws and nothing is sent);
     * an "ok" reply clears the reorder and refreshes both tables from the rules
     * it returns; any other reply or a failed request keeps everything.
     */
    method SaveOrder(side: Side, reply: Option<Reply>) returns (sent: Option<seq<map<string, string>>>)
      requires Valid()
      modifies source, destination
      ensures Valid()
      ensures sent.Some? <==> old(Order(side).dirty) && Defined(old(Order(side).pending))
      ensures sent.Some? ==> sent.value == Projections(RulesOf(old(Order(side).pending)), FieldsOf(side))
      ensures sent.None? || reply.None? || !reply.value.ok ==>
        && source.pending == old(source.pending) && source.dirty == old(source.dirty) && source.shown == old(source.shown)
        && destination.pending == old(destination.pending) && destination.dirty == old(destination.dirty)
        && destination.shown == old(destination.shown)
      ensures sent.Some? && reply.Some? && reply.value.ok ==>
        && !Order(side).dirty && Order(side).original == []
        && source.dirty == (old(source.dirty) && side != Source)
        && destination.dirty == (old(destination.dirty) && side != Destination)
        && source.pending == PendingAfterRefresh(old(source.pending), source.dirty, reply.value.rules, "source")
        && destination.pending ==
           PendingAfterRefresh(old(destination.pending), destination.dirty, reply.value.rules, "destination")
        && source.shown == RowsAfterRefresh(reply.value.rules, "source")
        && destination.shown == RowsAfterRefresh(reply.value.rules, "destination")
    {
      var order := Order(side);
      if !order.dirty || !Defined(order.pending) {
        return None;
      }
      sent := Some(Projections(RulesOf(order.pending), FieldsOf(side)));
      if reply.None? || !reply.value.ok {
        return;
      }
      order.Saved();
      RefreshRulesTable(reply.value.rules);
    }

    /** discardSourceOrder / discardDestOrder. */
    method DiscardOrder(side: Side)
      requires Valid()
      modifies Order(side)
      ensures Valid() && !Order(side).dirty
      ensures Order(side).original == (if old(Order(side).dirty) then [] else old(Order(side).original))
      ensures Order(side).pending == (if old(Order(side).dirty) then old(Order(side).original) else old(Order(side).pending))
      ensures Order(side).shown ==
        (if old(Order(side).dirty) && old(Order(side).original) != [] then RulesOf(old(Order(side).original))
         else old(Order(side).shown))
    {
      Order(side).Discard();
    }

    /** openDeleteNATModal: the rule to delete is remembered. */
    method OpenDelete(ruleType: Option<string>, ruleNumber: Option<string>)
      modifies this
      ensures deleteType == ruleType && deleteNumber == ruleNumber
    {
      deleteType := ruleType;
      deleteNumber := ruleNumber;
    }

    /** closeDeleteNATModal: the rule to delete is forgotten. */
    method CloseDelete()
      modifies this
      ensures deleteType.None? && deleteNumber.None?
    {
      deleteType := None;
      deleteNumber := None;
    }

    /**
     * confirmDeleteNATRule: without a rule type and number nothing is sent;
     * otherwise the delete of that rule is sent, and an "ok" reply refreshes the
     * tables and closes the dialog; any other reply or a failed request keeps
     * the dialog and the tables.
     */
    method ConfirmDelete(reply: Option<Reply>) returns (sent: Option<(string, string)>)
      requires Valid()
      modifies this, source, destination
      ensures Valid()
      ensures sent.Some? <==> old(deleteType).Some? && old(deleteType).value != "" && old(deleteNumber).Some? && old(deleteNumber).value != ""
      ensures sent.Some? ==> sent.value == (old(deleteType).value, old(deleteNumber).value)
      ensures sent.Some? && reply.Some? && reply.value.ok ==>
        && deleteType.None? && deleteNumber.None?
        && source.pending == PendingAfterRefresh(old(source.pending), old(source.dirty), reply.value.rules, "source")
        && destination.pending ==
           PendingAfterRefresh(old(destination.pending), old(destination.dirty), reply.value.rules, "destination")
        && source.shown == RowsAfterRefresh(reply.value.rules, "source")
        && destination.shown == RowsAfterRefresh(reply.value.rules, "destination")
      ensures sent.None? || reply.None? || !reply.value.ok ==>
        && deleteType == old(deleteType) && deleteNumber == old(deleteNumber)
        && source.pending == old(source.pending) && destination.pending == old(destination.pending)
        && source.shown == old(source.shown) && destination.shown == old(destination.shown)
      ensures source.dirty == old(source.dirty) && destination.dirty == old(destination.dirty)
    {
      if deleteType.None? || deleteType.value == "" || deleteNumber.None? || deleteNumber.value == "" {
        return None;
      }
      sent := Some((deleteType.value, deleteNumber.value));
      if reply.None? || !reply.value.ok {
        return;
      }
      RefreshRulesTable(reply.value.rules);
      CloseDelete();
    }
  }

  /**
   * Two moves that undo each other on a table showing the staged order give
   * the order back, but the reorder stays staged: the page does not compare
   * the order with the original.
   */
  method MoveAndMoveBack(page: NatPage, side: Side, from: nat, to: nat)
    requires page.Valid() && page.Order(side).InSync()
    requires from < |page.Order(side).shown| && to < |page.Order(side).shown| && from != to
    modifies page.Order(side)
    ensures page.Valid() && page.Order(side).dirty && page.Order(side).InSync()
    ensures page.Order(side).pending == old(page.Order(side).pending)
  {
    ghost var rows := page.Order(side).shown;
    page.Drop(side, Some(side), Some(from), Some(to));
    MoveBack(rows, from, to);
    page.Drop(side, Some(side), Some(to), Some(from));
  }

  /**
   * Moves by any indices followed by a discard restore the order staged before
   * the first move, except on the source side when the first move drags an
   * index past the end of an order without undefined entries: that move throws
   * after the splice, nothing is staged, every later move throws before it
   * changes anything, and the discard does nothing, so the undefined entry stays.
   */
  method MovesThenDiscard(page: NatPage, side: Side, moves: seq<(nat, nat)>)
    requires page.Valid() && !page.Order(side).dirty
    modifies page.Order(side)
    ensures page.Valid() && !page.Order(side).dirty
    ensures !(page.Order(side).logsRules && Defined(old(page.Order(side).pending)) &&
              |moves| > 0 && moves[0].0 >= |old(page.Order(side).pending)|) ==>
      page.Order(side).pending == old(page.Order(side).pending)
    ensures page.Order(side).logsRules && Defined(old(page.Order(side).pending)) &&
            |moves| > 0 && moves[0].0 >= |old(page.Order(side).pending)| ==>
      page.Order(side).pending == Splice(old(page.Order(side).pending), moves[0].0, moves[0].1)
  {
    var order := page.Order(side);
    ghost var start := order.pending;
    if moves == [] {
      page.DiscardOrder(side);
      return;
    }
    order.Reorder(moves[0].0, moves[0].1);
    ghost var after := order.pending;
    ghost var staged := order.dirty;
    if order.Logged(start) && moves[0].0 < |start| {
      SpliceDefined(start, moves[0].0, moves[0].1);
    } else if order.Logged(start) {
      assert !Defined(after);
    }
    var k := 1;
    while k < |moves|
      invariant 1 <= k <= |moves|
      invariant page.Valid()
      invariant order.dirty == staged
      invariant order.dirty ==> order.original == start
      invariant !order.dirty ==> order.pending == after && !order.Logged(after)
    {
      order.Reorder(moves[k].0, moves[k].1);
      k := k + 1;
    }
    page.DiscardOrder(side);
  }

  /**
   * A page loaded without initial rules has an empty source order under the
   * rows the server drew. Dropping the first row onto the second takes
   * nothing out of the empty order and puts an undefined entry in; logging it
   * throws, so nothing is staged. Every later source drop throws before it
   * changes anything, and a save sends nothing.
   */
  method DropWithoutInitialRules(a: NatRule, b: NatRule) returns (page: NatPage, sent: Option<seq<map<string, string>>>)
    requires a.kind == "source" && b.kind == "source"
    ensures page.Valid() && !page.source.dirty && page.source.pending == [Undefined]
    ensures page.source.shown == [a, b] && sent.None?
  {
    page := new NatPage(None, [a, b]);
    assert OfKind([a, b], "source") == [a, b];
    page.Drop(Source, Some(Source), Some(0), Some(1));
    assert page.source.pending == [Undefined];
    page.Drop(Source, Some(Source), Some(1), Some(0));
    sent := page.SaveOrder(Source, None);
  }

  /**
   * As written, a refresh while a source reorder is staged draws the rules in
   * the router's order but keeps the staged order, and the next drop moves the
   * staged order by the drawn rows' indices. With b, a staged and a, b
   * received, the first row shows a; dropping it onto the second row leaves a
   * first and the second row shows b.
   */
  method StaleRowsMoveAnotherRule(page: NatPage, a: NatRule, b: NatRule) returns (dragged: NatRule)
    requires page.Valid() && page.source.dirty && a != b
    requires a.kind == "source" && b.kind == "source"
    requires page.source.pending == Slots([b, a])
    modifies page.source, page.destination
    ensures page.Valid() && page.source.dirty
    ensures dragged == a && page.source.shown == [a, b] && page.source.shown[1] != dragged
  {
    page.RefreshRulesTable(Some([a, b]));
    assert page.source.shown == [a, b];
    dragged := page.source.shown[0];
    SpliceInRange(Slots([b, a]), 0, 1);
    assert Move(Slots([b, a]), 0, 1) == Slots([a, b]);
    RulesOfSlots([a, b]);
    page.Drop(Source, Some(Source), Some(0), Some(1));
  }

  /**
   * With the intended refresh, a drop after a refresh during a staged reorder
   * moves the rule shown on the dragged row onto the target row, and the table
   * keeps showing the staged order.
   */
  method FixedRefreshThenDrop(page: NatPage, rules: Option<seq<NatRule>>, from: nat, to: nat) returns (dragged: NatRule)
    requires page.Valid() && page.source.dirty && Defined(page.source.pending)
    requires from < |page.source.pending| && to < |page.source.pending| && from != to
    modifies page.source, page.destination
    ensures page.Valid() && page.source.dirty && page.source.InSync()
    ensures dragged == RulesOf(old(page.source.pending))[from]
    ensures |page.source.shown| == |old(page.source.pending)| && page.source.shown[to] == dragged
  {
    page.RefreshRulesTableFixed(rules);
    assert page.source.InSync();
    dragged := page.source.shown[from];
    page.Drop(Source, Some(Source), Some(from), Some(to));
  }

  /** A move sends the same saved forms as before it, in another order. */
  lemma SavedFormsPermute(s: seq<NatRule>, fields: seq<string>, from: nat, to: nat)
    requires from < |s| && to < |s|
    ensures multiset(Projections(Move(s, from, to), fields)) == multiset(Projections(s, fields))
  {
    ProjectionsMove(s, fields, from, to);
    MovePermutes(Projections(s, fields), from, to);
  }
}
