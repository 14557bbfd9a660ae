/**
 * Configuration paths (lists of path tokens) and the order-preserving
 * de-duplication every command batch goes through before it is sent.
 * The same loop appears as dedupe_commands, _dedupe and dedupe_paths.
 */
module Paths {
  type Path = seq<string>

  predicate HasPrefix<T(==)>(s: seq<T>, p: seq<T>)
  {
    |p| <= |s| && s[..|p|] == p
  }

  /** base + tail, with the facts every builder needs about it. */
  function Under(base: Path, tail: Path): (r: Path)
    ensures |r| == |base| + |tail| && HasPrefix(r, base)
    ensures forall i :: 0 <= i < |tail| ==> r[|base| + i] == tail[i]
  {
    base + tail
  }

  /** A prefix of a prefix is a prefix. */
  lemma PrefixTrans(a: Path, b: Path, c: Path)
    requires HasPrefix(a, b) && HasPrefix(b, c)
    ensures HasPrefix(a, c)
  {
    assert a[..|c|] == a[..|b|][..|c|];
  }

  /** Every path of the batch lies at or below `base`. */
  predicate AllUnder(cs: seq<Path>, base: Path)
  {
    forall c :: c in cs ==> HasPrefix(c, base)
  }

  lemma AllUnderAppend(a: seq<Path>, b: seq<Path>, base: Path)
    requires AllUnder(a, base) && AllUnder(b, base)
    ensures AllUnder(a + b, base)
  {
  }

  predicate NoDuplicates<T(==)>(xs: seq<T>)
  {
    forall i, j :: 0 <= i < j < |xs| ==> xs[i] != xs[j]
  }

  /** Concatenation of a list of batches, in order. */
  function Concat<T(!new)>(xss: seq<seq<T>>): (r: seq<T>)
    ensures forall x :: x in r <==> exists i :: 0 <= i < |xss| && x in xss[i]
  {
    if xss == [] then []
    else
      var init := xss[..|xss| - 1];
      var r := Concat(init) + xss[|xss| - 1];
      assert forall i :: 0 <= i < |init| ==> init[i] == xss[i];
      r
  }

  lemma ConcatSingle<T(!new)>(xs: seq<T>)
    ensures Concat([xs]) == xs
  {
    assert [xs][..0] == [];
  }

  /** Index of the first occurrence of `x` in `xs`. */
  function FirstIndex<T(==)>(xs: seq<T>, x: T): (i: nat)
    requires x in xs
    ensures i < |xs| && xs[i] == x && x !in xs[..i]
  {
    if xs[0] == x then 0 else 1 + FirstIndex(xs[1..], x)
  }

  lemma FirstIndexAppend<T>(xs: seq<T>, y: T, x: T)
    requires x in xs
    ensures FirstIndex(xs + [y], x) == FirstIndex(xs, x)
  {
    if xs[0] != x {
      assert (xs + [y])[1..] == xs[1..] + [y];
      FirstIndexAppend(xs[1..], y, x);
    }
  }

  /** The specification of de-duplication: each path kept at its first occurrence. */
  function Dedupe<T(==,!new)>(xs: seq<T>): (r: seq<T>)
    ensures NoDuplicates(r)
    ensures forall x :: x in r <==> x in xs
    ensures |r| <= |xs|
  {
    if xs == [] then []
    else
      var d := Dedupe(xs[..|xs| - 1]);
      var last := xs[|xs| - 1];
      assert forall x :: x in xs <==> x in xs[..|xs| - 1] || x == last;
      if last in d then d else d + [last]
  }

  /** The seen-set loop of dedupe_commands / _dedupe / dedupe_paths. */
  method DedupeCommands<T(==,!new)>(commands: seq<T>) returns (deduped: seq<T>)
    ensures deduped == Dedupe(commands)
  {
    deduped := [];
    var seen: set<T> := {};
    var i := 0;
    while i < |commands|
      invariant 0 <= i <= |commands|
      invariant deduped == Dedupe(commands[..i])
      invariant forall x :: x in seen <==> x in deduped
    {
      assert commands[..i + 1][..i] == commands[..i];
      var cmd := commands[i];
      if cmd !in seen {
        seen := seen + {cmd};
        deduped := deduped + [cmd];
      }
      i := i + 1;
    }
    assert commands[..i] == commands;
  }

  /**
   * Kept paths appear in the order of their first occurrence in the input:
   * of two kept paths, the earlier one first occurred earlier.
   */
  lemma {:induction false} DedupeFirstOccurrenceOrder<T(!new)>(xs: seq<T>, p: int, q: int)
    requires 0 <= p < q < |Dedupe(xs)|
    ensures FirstIndex(xs, Dedupe(xs)[p]) < FirstIndex(xs, Dedupe(xs)[q])
  {
    var init, last := xs[..|xs| - 1], xs[|xs| - 1];
    assert xs == init + [last];
    var d := Dedupe(init);
    var a := Dedupe(xs)[p];
    assert a in d;
    FirstIndexAppend(init, last, a);
    if q < |d| {
      DedupeFirstOccurrenceOrder(init, p, q);
      FirstIndexAppend(init, last, d[q]);
    } else {
      assert Dedupe(xs)[q] == last && last !in init;
    }
  }

  /** A list that already has no duplicates is returned unchanged. */
  lemma {:induction false} DedupeOfDistinct<T(!new)>(xs: seq<T>)
    requires NoDuplicates(xs)
    ensures Dedupe(xs) == xs
  {
    if xs != [] {
      var init := xs[..|xs| - 1];
      DedupeOfDistinct(init);
      assert xs[|xs| - 1] !in init;
      assert init + [xs[|xs| - 1]] == xs;
    }
  }

  /** De-duplicating twice is the same as once. */
  lemma DedupeIdempotent<T(!new)>(xs: seq<T>)
    ensures Dedupe(Dedupe(xs)) == Dedupe(xs)
  {
    DedupeOfDistinct(Dedupe(xs));
  }

  /** The first path of a non-empty batch survives de-duplication in first place. */
  lemma {:induction false} DedupeKeepsHead<T(!new)>(xs: seq<T>)
    requires xs != []
    ensures Dedupe(xs) != [] && Dedupe(xs)[0] == xs[0]
  {
    if |xs| > 1 {
      var init := xs[..|xs| - 1];
      DedupeKeepsHead(init);
      assert init[0] == xs[0];
    }
  }

  /** The set of elements of a list: Python set(xs). */
  function Elems<T>(xs: seq<T>): set<T>
  {
    set x | x in xs
  }

  /** A list has at least as many positions as elements, and as many exactly when it has no duplicates. */
  lemma {:induction false} ElemsCard<T>(xs: seq<T>)
    ensures |Elems(xs)| <= |xs|
    ensures |Elems(xs)| == |xs| <==> NoDuplicates(xs)
  {
    if xs != [] {
      var init, last := xs[..|xs| - 1], xs[|xs| - 1];
      assert xs == init + [last];
      ElemsCard(init);
      assert Elems(xs) == Elems(init) + {last};
      if last in init {
        assert Elems(xs) == Elems(init);
        var k :| 0 <= k < |init| && init[k] == last;
        assert xs[k] == xs[|xs| - 1];
      } else {
        assert |Elems(xs)| == |Elems(init)| + 1;
        if NoDuplicates(init) {
          assert NoDuplicates(xs);
        } else {
          var i, j :| 0 <= i < j < |init| && init[i] == init[j];
          assert xs[i] == xs[j];
        }
      }
    }
  }

  /** A list without duplicates holds each of its elements once. */
  lemma {:induction false} DistinctMultiplicity<T>(xs: seq<T>, x: T)
    requires NoDuplicates(xs)
    ensures multiset(xs)[x] == if x in xs then 1 else 0
  {
    if xs != [] {
      var init, last := xs[..|xs| - 1], xs[|xs| - 1];
      assert xs == init + [last];
      DistinctMultiplicity(init, x);
    }
  }

  /**
   * A list as long as a duplicate-free list and with the same elements is a
   * rearrangement of it.
   */
  lemma SameElemsPermutation<T>(xs: seq<T>, ys: seq<T>)
    requires NoDuplicates(ys) && |xs| == |ys| && Elems(xs) == Elems(ys)
    ensures NoDuplicates(xs)
    ensures multiset(xs) == multiset(ys)
  {
    ElemsCard(xs);
    ElemsCard(ys);
    forall x ensures multiset(xs)[x] == multiset(ys)[x] {
      DistinctMultiplicity(xs, x);
      DistinctMultiplicity(ys, x);
      assert x in xs <==> x in Elems(xs);
    }
  }

  /** Concatenation regrouped; used to step loops that append a block per element. */
  lemma AppendAssoc<T>(a: seq<T>, b: seq<T>, c: seq<T>)
    ensures (a + b) + c == a + (b + c)
  {
  }

  /** Whatever a prefix holds, the whole sequence holds. */
  lemma PrefixElems<T>(s: seq<T>, p: seq<T>)
    requires |p| <= |s| && s[..|p|] == p
    ensures forall x :: x in p ==> x in s
  {
    assert s == p + s[|p|..];
  }

  /** A non-empty sequence is its front followed by its last element. */
  lemma InitLast<T>(s: seq<T>)
    requires s != []
    ensures s[..|s| - 1] + [s[|s| - 1]] == s
  {
  }
}
