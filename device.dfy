/**
 * The device wrappers every handler goes through (configure_set,
 * configure_delete, configure_multiple_op), and an abstract model of the
 * device's configuration store that gives the batches a meaning.
 *
 * The device itself is not modelled: the response it returns to a call is a
 * parameter, and the store is the set of configuration paths that are present.
 */
module Device {
  import opened Wrappers
  import opened Text
  import opened Paths

  /** What the device answered: an error text ("" when there is none) and an HTTP status. */
  datatype Response = Response(status: int, error: string)

  /** One entry of a configure_multiple_op batch: {"op": "set"|"delete", "path": [...]}. */
  datatype Op = Set(path: Path) | Delete(path: Path)

  /** The (success, message) pair a wrapper returns, and whether it reached the device. */
  datatype Outcome = Outcome(called: bool, ok: bool, message: Option<string>)

  datatype Verb = Apply | Remove

  /** One call a handler makes: configure_set, configure_delete or configure_multiple_op. */
  datatype Call = SetCall(paths: seq<Path>) | DeleteCall(paths: seq<Path>) | MultiCall(ops: seq<Op>)

  /** The shared classification: an error text wins over the status. */
  function Classify(verb: Verb, context: string, resp: Response): (r: Outcome)
    ensures r.called
    ensures r.ok <==> resp.error == [] && resp.status == 200
    ensures r.ok <==> r.message.None?
    ensures resp.error != [] ==> r.message == Some(
      (if verb == Apply then "Failed to apply configuration for " else "Failed to delete configuration for ")
      + context + ": " + resp.error)
    ensures resp.error == [] && resp.status != 200 ==>
      r.message == Some("Device returned status " + IntStr(resp.status) + " for " + context)
  {
    if resp.error != [] then
      var lead := if verb == Apply then "Failed to apply configuration for " else "Failed to delete configuration for ";
      Outcome(true, false, Some(lead + context + ": " + resp.error))
    else if resp.status != 200 then
      Outcome(true, false, Some("Device returned status " + IntStr(resp.status) + " for " + context))
    else
      Outcome(true, true, Option.None)
  }

  /** configure_set: an empty batch succeeds without a call. */
  function ConfigureSet(commands: seq<Path>, context: string, resp: Response): (r: Outcome)
    ensures commands == [] ==> r == Outcome(false, true, Option.None)
    ensures commands != [] ==> r == Classify(Apply, context, resp)
    ensures r.ok <==> commands == [] || (resp.error == [] && resp.status == 200)
  {
    if commands == [] then Outcome(false, true, Option.None) else Classify(Apply, context, resp)
  }

  /** configure_delete: the same, with the delete wording of the error. */
  function ConfigureDelete(paths: seq<Path>, context: string, resp: Response): (r: Outcome)
    ensures paths == [] ==> r == Outcome(false, true, Option.None)
    ensures paths != [] ==> r == Classify(Remove, context, resp)
    ensures r.ok <==> paths == [] || (resp.error == [] && resp.status == 200)
  {
    if paths == [] then Outcome(false, true, Option.None) else Classify(Remove, context, resp)
  }

  /** configure_multiple_op: one call for a mixed batch, worded as configure_set. */
  function ConfigureMultiple(ops: seq<Op>, context: string, resp: Response): (r: Outcome)
    ensures ops == [] ==> r == Outcome(false, true, Option.None)
    ensures ops != [] ==> r == Classify(Apply, context, resp)
    ensures r.ok <==> ops == [] || (resp.error == [] && resp.status == 200)
  {
    if ops == [] then Outcome(false, true, Option.None) else Classify(Apply, context, resp)
  }

  /** A batch of set operations for the given paths. */
  function Sets(paths: seq<Path>): (r: seq<Op>)
    ensures |r| == |paths| && forall i :: 0 <= i < |r| ==> r[i] == Set(paths[i])
  {
    seq(|paths|, i requires 0 <= i < |paths| => Set(paths[i]))
  }

  /** A batch of delete operations for the given paths. */
  function Deletes(paths: seq<Path>): (r: seq<Op>)
    ensures |r| == |paths| && forall i :: 0 <= i < |r| ==> r[i] == Delete(paths[i])
  {
    seq(|paths|, i requires 0 <= i < |paths| => Delete(paths[i]))
  }

  /** Every delete of the batch comes before every set. */
  predicate DeletesFirst(ops: seq<Op>)
  {
    forall i, j :: 0 <= i < j < |ops| && ops[i].Set? ==> ops[j].Set?
  }

  lemma DeletesThenSetsOrdered(ds: seq<Path>, ss: seq<Path>)
    ensures DeletesFirst(Deletes(ds) + Sets(ss))
  {
    var ops := Deletes(ds) + Sets(ss);
    forall i, j | 0 <= i < j < |ops| && ops[i].Set? ensures ops[j].Set? {
      assert i >= |ds|;
    }
  }

  // ---------------------------------------------------------------------
  // The configuration store: the set of paths present on the device.
  // The device's schema, which says which nodes are single-valued leaves, is
  // not modelled, so a set never displaces a sibling value: `mode X` and a
  // later `mode Y` are both present afterwards.

  type Store = set<Path>

  /** The store after one operation: set adds the path, delete removes it and all below it. */
  function Step(store: Store, op: Op): (r: Store)
    ensures op.Set? ==> op.path in r && store <= r
    ensures op.Delete? ==> r <= store && forall q :: q in r ==> !HasPrefix(q, op.path)
    ensures op.Delete? ==> forall q :: q in store && !HasPrefix(q, op.path) ==> q in r
  {
    match op
    case Set(p) => store + {p}
    case Delete(p) => set q | q in store && !HasPrefix(q, p)
  }

  /** The store after a batch, applied in order. */
  function Run(store: Store, ops: seq<Op>): Store
    decreases ops
  {
    if ops == [] then store else Run(Step(store, ops[0]), ops[1..])
  }

  /** A successful call applies its batch; a failed or skipped one leaves the store as it was. */
  function Commit(store: Store, ops: seq<Op>, outcome: Outcome): (r: Store)
    ensures !outcome.ok ==> r == store
  {
    if outcome.ok then Run(store, ops) else store
  }

  /** Removing everything below the given paths. */
  function Without(store: Store, ds: seq<Path>): (r: Store)
    ensures forall q :: q in r <==> q in store && forall d :: d in ds ==> !HasPrefix(q, d)
  {
    set q | q in store && forall d :: d in ds ==> !HasPrefix(q, d)
  }

  lemma {:induction false} RunDeletes(store: Store, ds: seq<Path>)
    ensures Run(store, Deletes(ds)) == Without(store, ds)
    decreases ds
  {
    if ds != [] {
      assert Deletes(ds)[1..] == Deletes(ds[1..]);
      RunDeletes(Step(store, Delete(ds[0])), ds[1..]);
      assert forall d :: d in ds <==> d == ds[0] || d in ds[1..];
    }
  }

  lemma {:induction false} RunSets(store: Store, ss: seq<Path>)
    ensures Run(store, Sets(ss)) == store + set p | p in ss
    decreases ss
  {
    if ss != [] {
      assert Sets(ss)[1..] == Sets(ss[1..]);
      RunSets(Step(store, Set(ss[0])), ss[1..]);
      assert forall p :: p in ss <==> p == ss[0] || p in ss[1..];
    }
  }

  /** Deleting a path just set restores a store that held nothing under it. */
  lemma DeleteUndoesSet(store: Store, p: Path)
    requires forall q :: q in store ==> !HasPrefix(q, p)
    ensures Run(Run(store, [Set(p)]), [Delete(p)]) == store
  {
    assert Run(store, [Set(p)]) == store + {p};
    assert HasPrefix(p, p);
  }

  lemma {:induction false} RunAppend(store: Store, a: seq<Op>, b: seq<Op>)
    ensures Run(store, a + b) == Run(Run(store, a), b)
    decreases a
  {
    if a != [] {
      assert (a + b)[1..] == a[1..] + b;
      RunAppend(Step(store, a[0]), a[1..], b);
    } else {
      assert a + b == b;
    }
  }

  /**
   * Why deletes go first: a batch of deletes followed by sets leaves exactly the
   * untouched part of the store plus every path that was set.
   */
  lemma DeletesThenSets(store: Store, ds: seq<Path>, ss: seq<Path>)
    ensures Run(store, Deletes(ds) + Sets(ss)) == Without(store, ds) + set p | p in ss
  {
    RunAppend(store, Deletes(ds), Sets(ss));
    RunDeletes(store, ds);
    RunSets(Without(store, ds), ss);
  }

  /** The other order loses a set path that lies below a deleted one. */
  lemma SetThenDeleteLoses(store: Store, p: Path, d: Path)
    requires HasPrefix(p, d)
    ensures p !in Run(store, [Set(p), Delete(d)])
  {
    var s1 := Step(store, Set(p));
    assert [Set(p), Delete(d)][1..] == [Delete(d)];
    assert Run(store, [Set(p), Delete(d)]) == Run(s1, [Delete(d)]);
    assert Run(s1, [Delete(d)]) == Run(Step(s1, Delete(d)), []);
  }
}
