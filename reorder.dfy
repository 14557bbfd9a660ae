/**
 * The drag-and-drop move shared by the firewall rule editor and the NAT page:
 * `list.splice(from, 1)` takes the dragged element out and
 * `list.splice(to, 0, moved)` puts it back in front of the element at `to`.
 * The firewall editor draws its rows from the list it moves, so both
 * indices are below the length; the NAT page, whose rows can differ from
 * its staged order, has its own version for any indices (NatStaging.Splice).
 */
module Reorder {

  function Move<T>(s: seq<T>, from: nat, to: nat): (r: seq<T>)
    requires from < |s| && to < |s|
    ensures |r| == |s|
    ensures r[to] == s[from]
  {
    var rest := s[..from] + s[from + 1..];
    rest[..to] + [s[from]] + rest[to..]
  }

  /** The index in the old list of the element a move puts at `i`. */
  function MovedFrom(from: nat, to: nat, i: nat): nat
  {
    if i == to then from
    else if from < to && from <= i < to then i + 1
    else if to < from && to < i <= from then i - 1
    else i
  }

  /** A move shifts the elements between the two indices by one and leaves the rest in place. */
  lemma MoveAt<T>(s: seq<T>, from: nat, to: nat, i: nat)
    requires from < |s| && to < |s| && i < |s|
    ensures MovedFrom(from, to, i) < |s|
    ensures Move(s, from, to)[i] == s[MovedFrom(from, to, i)]
  {
    var rest := s[..from] + s[from + 1..];
    assert |rest| == |s| - 1;
    assert forall k :: 0 <= k < |rest| ==> rest[k] == (if k < from then s[k] else s[k + 1]);
    var r := rest[..to] + [s[from]] + rest[to..];
    if i < to {
      assert r[i] == rest[i];
    } else if i > to {
      assert r[i] == rest[i - 1];
    }
  }

  /** A move is a permutation: nothing is lost or duplicated. */
  lemma MovePermutes<T>(s: seq<T>, from: nat, to: nat)
    requires from < |s| && to < |s|
    ensures multiset(Move(s, from, to)) == multiset(s)
  {
    var rest := s[..from] + s[from + 1..];
    assert s == s[..from] + [s[from]] + s[from + 1..];
    assert rest == rest[..to] + rest[to..];
    calc {
      multiset(Move(s, from, to));
      multiset(rest[..to]) + multiset([s[from]]) + multiset(rest[to..]);
      multiset(rest) + multiset([s[from]]);
      multiset(s);
    }
  }

  /** Dropping a row onto itself leaves the list as it was. */
  lemma MoveSame<T>(s: seq<T>, i: nat)
    requires i < |s|
    ensures Move(s, i, i) == s
  {
    forall k | 0 <= k < |s|
      ensures Move(s, i, i)[k] == s[k]
    {
      MoveAt(s, i, i, k);
    }
  }

  /** Dragging the moved row back to where it came from restores the list. */
  lemma MoveBack<T>(s: seq<T>, from: nat, to: nat)
    requires from < |s| && to < |s|
    ensures Move(Move(s, from, to), to, from) == s
  {
    var m := Move(s, from, to);
    forall k | 0 <= k < |s|
      ensures Move(m, to, from)[k] == s[k]
    {
      MoveAt(m, to, from, k);
      MoveAt(s, from, to, MovedFrom(to, from, k));
    }
  }
}
