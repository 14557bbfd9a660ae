/**
 * The device's configuration tree as returned by a show-config request, and the
 * normalisation every entity parser applies to it before reading fields.
 *
 * A node is a leaf string, a dictionary (an ORDERED list of key/value pairs, so
 * "first key" and insertion order are those of the Python dict), a list, or null.
 */
module ConfigTree {
  import opened Wrappers
  import opened Text

  datatype Node = Leaf(text: string) | Map(entries: seq<(string, Node)>) | List(items: seq<Node>) | None

  type Entries = seq<(string, Node)>

  /** Python truthiness of a configuration value. */
  predicate Truthy(n: Node)
  {
    match n
    case Leaf(s) => s != []
    case Map(m) => m != []
    case List(xs) => xs != []
    case None => false
  }

  function Keys(m: Entries): (ks: seq<string>)
    ensures |ks| == |m| && forall i :: 0 <= i < |m| ==> ks[i] == m[i].0
  {
    seq(|m|, i requires 0 <= i < |m| => m[i].0)
  }

  /** Every Python dict satisfies this: no key occurs twice. */
  predicate UniqueKeys(m: Entries)
  {
    forall i, j :: 0 <= i < j < |m| ==> m[i].0 != m[j].0
  }

  /** dict.get(k): the value stored under `k`, if any. */
  function Lookup(m: Entries, k: string): (r: Option<Node>)
    ensures r.Some? <==> k in Keys(m)
  {
    if m == [] then Option.None
    else if m[0].0 == k then Some(m[0].1)
    else
      assert Keys(m) == [m[0].0] + Keys(m[1..]);
      Lookup(m[1..], k)
  }

  /** dict.get(k) with Python's default of None. */
  function Get(m: Entries, k: string): Node
  {
    Lookup(m, k).GetOr(Node.None)
  }

  /** In a dict, the value found under the key of the i-th entry is that entry's value. */
  lemma LookupAt(m: Entries, i: int)
    requires UniqueKeys(m) && 0 <= i < |m|
    ensures Lookup(m, m[i].0) == Some(m[i].1)
  {
    if i > 0 {
      LookupAt(m[1..], i - 1);
    }
  }

  /** d[k] = v: an existing key keeps its position, a new key goes last. */
  function MapPut(m: Entries, k: string, v: Node): (r: Entries)
    ensures Keys(r) == if k in Keys(m) then Keys(m) else Keys(m) + [k]
  {
    if m == [] then [(k, v)]
    else if m[0].0 == k then
      KeysCons(m[0], m[1..]);
      KeysCons((k, v), m[1..]);
      [(k, v)] + m[1..]
    else
      var rest := MapPut(m[1..], k, v);
      KeysCons(m[0], m[1..]);
      KeysCons(m[0], rest);
      [m[0]] + rest
  }

  lemma KeysCons(e: (string, Node), m: Entries)
    ensures Keys([e] + m) == [e.0] + Keys(m)
  {
  }

  /** After d[k] = v, d[k] is v and every other key keeps its value. */
  lemma {:induction false} MapPutLookup(m: Entries, k: string, v: Node, k': string)
    ensures Lookup(MapPut(m, k, v), k') == if k' == k then Some(v) else Lookup(m, k')
  {
    if m != [] && m[0].0 != k {
      MapPutLookup(m[1..], k, v, k');
    }
  }

  /** Assignment keeps a dict a dict: keys stay unique. */
  lemma MapPutUnique(m: Entries, k: string, v: Node)
    ensures UniqueKeys(m) ==> UniqueKeys(MapPut(m, k, v))
  {
    var r := MapPut(m, k, v);
    assert Keys(r) == if k in Keys(m) then Keys(m) else Keys(m) + [k];
    if UniqueKeys(m) {
      forall i, j | 0 <= i < j < |r| ensures r[i].0 != r[j].0 {
        assert r[i].0 == Keys(r)[i] && r[j].0 == Keys(r)[j];
        if j < |m| {
          assert r[i].0 == m[i].0 && r[j].0 == m[j].0;
        } else {
          assert r[i].0 == Keys(m)[i];
        }
      }
    }
  }

  /** dict.update(src): every pair of `src` put in order. */
  function Update(acc: Entries, src: Entries): (r: Entries)
    ensures UniqueKeys(acc) ==> UniqueKeys(r)
  {
    if src == [] then acc
    else
      var prev := Update(acc, src[..|src| - 1]);
      MapPutUnique(prev, src[|src| - 1].0, src[|src| - 1].1);
      MapPut(prev, src[|src| - 1].0, src[|src| - 1].1)
  }

  /** The merge loop of ensure_mapping over a list: dict entries update the result in order. */
  function MergedDicts(xs: seq<Node>): (r: Entries)
    ensures UniqueKeys(r)
  {
    if xs == [] then []
    else
      var acc := MergedDicts(xs[..|xs| - 1]);
      var last := xs[|xs| - 1];
      if last.Map? then Update(acc, last.entries) else acc
  }

  /**
   * ensure_mapping / ensure_dict / _merge_container: a dict is returned as it is,
   * a list is merged, anything else is the empty dict.
   */
  function MappingOf(n: Node): Entries
  {
    match n
    case Map(m) => m
    case List(xs) => MergedDicts(xs)
    case _ => []
  }

  /** ensure_mapping as the source runs it: one update per dict entry of the list. */
  method EnsureMapping(n: Node) returns (m: Entries)
    ensures m == MappingOf(n)
    ensures n.Map? ==> m == n.entries
    ensures !n.Map? && !n.List? ==> m == []
  {
    match n {
      case Map(entries) =>
        m := entries;
      case List(xs) =>
        m := [];
        var i := 0;
        while i < |xs|
          invariant 0 <= i <= |xs|
          invariant m == MergedDicts(xs[..i])
        {
          assert xs[..i + 1][..i] == xs[..i];
          if xs[i].Map? {
            m := Update(m, xs[i].entries);
          }
          i := i + 1;
        }
        assert xs[..i] == xs;
      case _ =>
        m := [];
    }
  }

  /** The value a later-wins merge must keep for `k`: the one in the LAST dict holding `k`. */
  function LastDictValue(xs: seq<Node>, k: string): Option<Node>
  {
    if xs == [] then Option.None
    else
      var last := xs[|xs| - 1];
      if last.Map? && k in Keys(last.entries) then Lookup(last.entries, k)
      else LastDictValue(xs[..|xs| - 1], k)
  }

  lemma LookupAppend(m: Entries, e: (string, Node), k: string)
    requires k != e.0
    ensures Lookup(m + [e], k) == Lookup(m, k)
  {
    if m != [] {
      assert (m + [e])[1..] == m[1..] + [e];
      LookupAppend(m[1..], e, k);
    }
  }

  /** After dict.update(src), keys of `src` map to their value in `src`, other keys are untouched. */
  lemma {:induction false} UpdateLookup(acc: Entries, src: Entries, k: string)
    requires UniqueKeys(src)
    ensures Lookup(Update(acc, src), k) == if k in Keys(src) then Lookup(src, k) else Lookup(acc, k)
  {
    if src != [] {
      var init, last := src[..|src| - 1], src[|src| - 1];
      assert src == init + [last];
      assert Keys(src) == Keys(init) + [last.0];
      UpdateLookup(acc, init, k);
      MapPutLookup(Update(acc, init), last.0, last.1, k);
      if k == last.0 {
        LookupAt(src, |src| - 1);
      } else {
        LookupAppend(init, last, k);
      }
    }
  }

  /**
   * Merging a list keeps, for every key, the value of the last dict that holds it,
   * and holds exactly the keys found in some dict entry (non-dict entries are skipped).
   */
  lemma {:induction false} MergeLaterWins(xs: seq<Node>, k: string)
    requires forall i :: 0 <= i < |xs| && xs[i].Map? ==> UniqueKeys(xs[i].entries)
    ensures Lookup(MappingOf(List(xs)), k) == LastDictValue(xs, k)
  {
    if xs != [] {
      var init, last := xs[..|xs| - 1], xs[|xs| - 1];
      MergeLaterWins(init, k);
      if last.Map? {
        UpdateLookup(MergedDicts(init), last.entries, k);
      }
    }
  }

  /** Python str() of a value; containers use a quoted rendering of their items. */
  function Str(n: Node): string
    decreases n, 0
  {
    match n
    case Leaf(s) => s
    case None => "None"
    case List(xs) => "[" + Join(seq(|xs|, i requires 0 <= i < |xs| => Repr(xs[i])), ", ") + "]"
    case Map(m) => "{" + Join(seq(|m|, i requires 0 <= i < |m| => "'" + m[i].0 + "': " + Repr(m[i].1)), ", ") + "}"
  }

  /** Python repr() of an item inside a container. */
  function Repr(n: Node): string
    decreases n, 1
  {
    if n.Leaf? then "'" + n.text + "'" else Str(n)
  }

  /**
   * ensure_list: null is the empty list, a list is copied, a dict gives its keys,
   * and any other value is wrapped in a one-item list.
   */
  function EnsureList(n: Node): (r: seq<Node>)
    ensures n.None? ==> r == []
    ensures n.List? ==> r == n.items
    ensures n.Map? ==> |r| == |n.entries| && forall i :: 0 <= i < |r| ==> r[i] == Leaf(n.entries[i].0)
    ensures n.Leaf? ==> r == [n]
  {
    match n
    case None => []
    case List(xs) => xs
    case Map(m) => seq(|m|, i requires 0 <= i < |m| => Leaf(m[i].0))
    case Leaf(_) => [n]
  }

  /** strip_or_none: null stays null, anything else becomes its stripped text. */
  function StripOrNone(n: Node): (r: Option<string>)
    ensures r.None? <==> n.None?
    ensures n.Leaf? ==> r == Some(Strip(n.text))
  {
    if n.None? then Option.None else Some(Strip(Str(n)))
  }
}
