/**
 * Integer helpers: maximum and minimum of a list, ordering of integer-keyed
 * entries, and int() over a list of rule keys.
 */
module Numbers {
  import opened Wrappers
  import opened Text
  import opened Sorting

  /** Python max over a non-empty sequence of integers. */
  function MaxOf(xs: seq<int>): (m: int)
    requires xs != []
    ensures m in xs && forall x :: x in xs ==> x <= m
  {
    if |xs| == 1 then xs[0]
    else
      var t := MaxOf(xs[1..]);
      assert xs == [xs[0]] + xs[1..];
      if xs[0] >= t then xs[0] else t
  }

  /** Python min over a non-empty sequence of integers. */
  function MinOf(xs: seq<int>): (m: int)
    requires xs != []
    ensures m in xs && forall x :: x in xs ==> m <= x
  {
    if |xs| == 1 then xs[0]
    else
      var t := MinOf(xs[1..]);
      assert xs == [xs[0]] + xs[1..];
      if xs[0] <= t then xs[0] else t
  }

  predicate StrictlyIncreasing(xs: seq<int>)
  {
    forall i, j :: 0 <= i < j < |xs| ==> xs[i] < xs[j]
  }

  function KeysOf<V>(entries: seq<(int, V)>): (ks: seq<int>)
    ensures |ks| == |entries| && forall i :: 0 <= i < |entries| ==> ks[i] == entries[i].0
  {
    seq(|entries|, i requires 0 <= i < |entries| => entries[i].0)
  }

  /** Insert one entry into a list already ordered by strictly increasing key. */
  function InsertByKey<V(!new)>(e: (int, V), sorted: seq<(int, V)>): (r: seq<(int, V)>)
    requires StrictlyIncreasing(KeysOf(sorted))
    requires forall x :: x in sorted ==> x.0 != e.0
    ensures StrictlyIncreasing(KeysOf(r))
    ensures forall x :: x in r <==> x == e || x in sorted
    ensures |r| == |sorted| + 1
  {
    if sorted == [] || e.0 < sorted[0].0 then
      ConsIncreasing(e, sorted);
      [e] + sorted
    else
      TailIncreasing(sorted);
      var rest := InsertByKey(e, sorted[1..]);
      ConsIncreasing(sorted[0], rest);
      [sorted[0]] + rest
  }

  /** The tail of an increasing list increases, and lies above its head. */
  lemma TailIncreasing<V>(sorted: seq<(int, V)>)
    requires sorted != [] && StrictlyIncreasing(KeysOf(sorted))
    ensures StrictlyIncreasing(KeysOf(sorted[1..]))
    ensures forall x :: x in sorted <==> x == sorted[0] || x in sorted[1..]
    ensures forall x :: x in sorted[1..] ==> sorted[0].0 < x.0
  {
    var ks, kt := KeysOf(sorted), KeysOf(sorted[1..]);
    forall i, j | 0 <= i < j < |kt| ensures kt[i] < kt[j] {
      assert kt[i] == ks[i + 1] && kt[j] == ks[j + 1];
    }
    forall x | x in sorted[1..] ensures sorted[0].0 < x.0 {
      var i :| 0 <= i < |sorted[1..]| && sorted[1..][i] == x;
      assert ks[0] < ks[i + 1];
    }
    assert sorted == [sorted[0]] + sorted[1..];
  }

  /** A head below every key of an increasing list keeps it increasing. */
  lemma ConsIncreasing<V>(h: (int, V), rest: seq<(int, V)>)
    requires StrictlyIncreasing(KeysOf(rest))
    requires forall x :: x in rest ==> h.0 < x.0
    ensures StrictlyIncreasing(KeysOf([h] + rest))
    ensures forall x :: x in [h] + rest <==> x == h || x in rest
  {
    var ks, kr := KeysOf([h] + rest), KeysOf(rest);
    forall i, j | 0 <= i < j < |ks| ensures ks[i] < ks[j] {
      assert ks[j] == kr[j - 1] && rest[j - 1] in rest;
      if i > 0 {
        assert ks[i] == kr[i - 1];
      }
    }
  }

  /** Python sorted(d.items()) for an integer-keyed dict: same entries, ascending keys. */
  function SortByKey<V(!new)>(entries: seq<(int, V)>): (r: seq<(int, V)>)
    requires forall i, j :: 0 <= i < j < |entries| ==> entries[i].0 != entries[j].0
    ensures StrictlyIncreasing(KeysOf(r))
    ensures forall x :: x in r <==> x in entries
    ensures |r| == |entries|
  {
    if entries == [] then []
    else
      var last := entries[|entries| - 1];
      var init := entries[..|entries| - 1];
      assert forall x :: x in entries <==> x == last || x in init;
      InsertByKey(last, SortByKey(init))
  }

  /** An entry above every key of a sorted list is inserted at its end. */
  lemma {:induction false} InsertByKeyLast<V(!new)>(e: (int, V), sorted: seq<(int, V)>)
    requires StrictlyIncreasing(KeysOf(sorted))
    requires forall x :: x in sorted ==> x.0 < e.0
    ensures InsertByKey(e, sorted) == sorted + [e]
  {
    if sorted != [] {
      var tail := sorted[1..];
      TailIncreasing(sorted);
      assert sorted[0].0 < e.0 by {
        assert sorted[0] in sorted;
      }
      InsertByKeyLast(e, tail);
      assert sorted == [sorted[0]] + tail;
    }
  }

  /** Sorting a list whose keys already increase gives the list back. */
  lemma {:induction false} SortByKeyOfSorted<V(!new)>(entries: seq<(int, V)>)
    requires StrictlyIncreasing(KeysOf(entries))
    ensures SortByKey(entries) == entries
  {
    if entries != [] {
      var init := entries[..|entries| - 1];
      var last := entries[|entries| - 1];
      var ks, ki := KeysOf(entries), KeysOf(init);
      assert StrictlyIncreasing(ki) by {
        forall i, j | 0 <= i < j < |ki| ensures ki[i] < ki[j] {
          assert ki[i] == ks[i] && ki[j] == ks[j];
        }
      }
      SortByKeyOfSorted(init);
      forall x | x in init ensures x.0 < last.0 {
        var i :| 0 <= i < |init| && init[i] == x;
        assert ks[i] < ks[|entries| - 1];
      }
      InsertByKeyLast(last, init);
      assert init + [last] == entries;
    }
  }

  /** int(key) of every key, or None when one of them raises ValueError. */
  function AllNumbers(keys: seq<string>): (r: Option<seq<int>>)
    ensures r.Some? ==> |r.value| == |keys| && forall i :: 0 <= i < |keys| ==> ParseInt(keys[i]) == Some(r.value[i])
    ensures r.None? ==> exists i :: 0 <= i < |keys| && ParseInt(keys[i]).None?
  {
    if keys == [] then Some([])
    else
      var init := AllNumbers(keys[..|keys| - 1]);
      var last := ParseInt(keys[|keys| - 1]);
      if init.None? || last.None? then Option.None
      else Some(init.value + [last.value])
  }

  function IntStrs(ns: seq<int>): (r: seq<string>)
    ensures |r| == |ns| && forall i :: 0 <= i < |ns| ==> r[i] == IntStr(ns[i])
  {
    seq(|ns|, i requires 0 <= i < |ns| => IntStr(ns[i]))
  }

  function Identity(x: int): int { x }

  /** sorted(int(key) for key in existing_keys), or None on ValueError. */
  function SortedNumbers(keys: seq<string>): (r: Option<seq<int>>)
    ensures r.None? <==> AllNumbers(keys).None?
    ensures r.Some? ==> multiset(r.value) == multiset(AllNumbers(keys).value) && |r.value| == |keys|
    ensures r.Some? ==> forall i, j :: 0 <= i < j < |r.value| ==> r.value[i] <= r.value[j]
  {
    match AllNumbers(keys)
    case None => Option.None
    case Some(ns) =>
      IntLeTotal();
      var s := SortBy(ns, Identity, IntLe);
      assert forall i, j :: 0 <= i < j < |s| ==> IntLe(Identity(s[i]), Identity(s[j]));
      Some(s)
  }
}
