/**
 * Python's sorted(xs, key=...) as a stable insertion sort under a total
 * preorder on keys, and the orders the handlers sort by: integers, strings
 * (code-point lexicographic, as Python compares str) and pairs of strings.
 */
module Sorting {
  ghost predicate TotalPreorder<K(!new)>(le: (K, K) -> bool)
  {
    (forall a, b :: le(a, b) || le(b, a)) &&
    (forall a, b, c :: le(a, b) && le(b, c) ==> le(a, c))
  }

  predicate SortedBy<T, K>(xs: seq<T>, key: T -> K, le: (K, K) -> bool)
  {
    forall i, j :: 0 <= i < j < |xs| ==> le(key(xs[i]), key(xs[j]))
  }

  /** Insert `x` after every element whose key is not greater than its own. */
  function InsertBy<T(!new), K(!new)>(x: T, sorted: seq<T>, key: T -> K, le: (K, K) -> bool): (r: seq<T>)
    requires TotalPreorder(le) && SortedBy(sorted, key, le)
    ensures SortedBy(r, key, le)
    ensures multiset(r) == multiset(sorted) + multiset{x}
  {
    if sorted == [] then [x]
    else if !le(key(sorted[0]), key(x)) then
      assert le(key(x), key(sorted[0]));
      [x] + sorted
    else
      var rest := InsertBy(x, sorted[1..], key, le);
      HeadBelowInsert(x, sorted, rest, key, le);
      ConsSorted(sorted[0], rest, key, le);
      assert sorted == [sorted[0]] + sorted[1..];
      [sorted[0]] + rest
  }

  /** What goes after the head of a sorted list is never below the head. */
  lemma HeadBelowInsert<T, K>(x: T, sorted: seq<T>, rest: seq<T>, key: T -> K, le: (K, K) -> bool)
    requires sorted != [] && SortedBy(sorted, key, le) && le(key(sorted[0]), key(x))
    requires multiset(rest) == multiset(sorted[1..]) + multiset{x}
    ensures forall y :: y in rest ==> le(key(sorted[0]), key(y))
  {
    forall y | y in rest ensures le(key(sorted[0]), key(y)) {
      assert y in multiset(rest);
      if y != x {
        assert y in multiset(sorted[1..]);
        var k :| 0 <= k < |sorted[1..]| && sorted[1..][k] == y;
        assert sorted[k + 1] == y;
      }
    }
  }

  lemma ConsSorted<T, K>(h: T, rest: seq<T>, key: T -> K, le: (K, K) -> bool)
    requires SortedBy(rest, key, le)
    requires forall y :: y in rest ==> le(key(h), key(y))
    ensures SortedBy([h] + rest, key, le)
  {
    var r := [h] + rest;
    forall i, j | 0 <= i < j < |r| ensures le(key(r[i]), key(r[j])) {
      if i == 0 {
        assert r[j] == rest[j - 1] && rest[j - 1] in rest;
      } else {
        assert r[i] == rest[i - 1] && r[j] == rest[j - 1];
      }
    }
  }

  /** The elements of `xs` whose key is tied with `k` (each below the other), in order. */
  function Tied<T, K>(xs: seq<T>, key: T -> K, le: (K, K) -> bool, k: K): seq<T>
  {
    if xs == [] then []
    else (if le(key(xs[0]), k) && le(k, key(xs[0])) then [xs[0]] else []) + Tied(xs[1..], key, le, k)
  }

  lemma {:induction false} TiedConcat<T, K>(a: seq<T>, b: seq<T>, key: T -> K, le: (K, K) -> bool, k: K)
    ensures Tied(a + b, key, le, k) == Tied(a, key, le, k) + Tied(b, key, le, k)
    decreases |a|
  {
    if a == [] {
      assert a + b == b;
    } else {
      assert (a + b)[1..] == a[1..] + b;
      TiedConcat(a[1..], b, key, le, k);
    }
  }

  lemma {:induction false} NoneTied<T, K>(xs: seq<T>, key: T -> K, le: (K, K) -> bool, k: K)
    requires forall i :: 0 <= i < |xs| ==> !(le(key(xs[i]), k) && le(k, key(xs[i])))
    ensures Tied(xs, key, le, k) == []
    decreases |xs|
  {
    if xs != [] {
      NoneTied(xs[1..], key, le, k);
    }
  }

  /** When `x` goes in front, nothing after it shares its key class. */
  lemma NoTieAfterHead<T(!new), K(!new)>(x: T, sorted: seq<T>, key: T -> K, le: (K, K) -> bool, k: K)
    requires TotalPreorder(le) && SortedBy(sorted, key, le)
    requires sorted != [] && !le(key(sorted[0]), key(x)) && le(k, key(x))
    ensures Tied(sorted, key, le, k) == []
  {
    forall i | 0 <= i < |sorted| ensures !le(key(sorted[i]), k) {
      var a, b := key(sorted[0]), key(sorted[i]);
      assert le(a, b) by {
        if i == 0 {
          assert le(a, a) || le(a, a);
        }
      }
      assert le(b, k) ==> le(b, key(x));
      assert le(b, key(x)) ==> le(a, key(x));
    }
    NoneTied(sorted, key, le, k);
  }

  /**
   * Inserting `x` puts it after every element of its key class: the class in
   * the result is the class in `sorted`, then `x` if it belongs to it.
   */
  lemma {:induction false} InsertByTied<T(!new), K(!new)>(x: T, sorted: seq<T>, key: T -> K, le: (K, K) -> bool, k: K)
    requires TotalPreorder(le) && SortedBy(sorted, key, le)
    ensures Tied(InsertBy(x, sorted, key, le), key, le, k) == Tied(sorted, key, le, k) + Tied([x], key, le, k)
    decreases |sorted|
  {
    if sorted == [] {
    } else if !le(key(sorted[0]), key(x)) {
      InsertInFrontTied(x, sorted, key, le, k);
    } else {
      InsertByTied(x, sorted[1..], key, le, k);
      ConsTied(sorted[0], InsertBy(x, sorted[1..], key, le), sorted[1..], x, key, le, k);
      assert InsertBy(x, sorted, key, le) == [sorted[0]] + InsertBy(x, sorted[1..], key, le);
      assert sorted == [sorted[0]] + sorted[1..];
    }
  }

  lemma InsertInFrontTied<T(!new), K(!new)>(x: T, sorted: seq<T>, key: T -> K, le: (K, K) -> bool, k: K)
    requires TotalPreorder(le) && SortedBy(sorted, key, le)
    requires sorted != [] && !le(key(sorted[0]), key(x))
    ensures Tied(InsertBy(x, sorted, key, le), key, le, k) == Tied(sorted, key, le, k) + Tied([x], key, le, k)
  {
    assert InsertBy(x, sorted, key, le) == [x] + sorted;
    TiedConcat([x], sorted, key, le, k);
    if le(key(x), k) && le(k, key(x)) {
      NoTieAfterHead(x, sorted, key, le, k);
    }
  }

  /** Putting the same head in front of two sequences keeps a split of their key classes. */
  lemma ConsTied<T, K>(h: T, rest: seq<T>, tail: seq<T>, x: T, key: T -> K, le: (K, K) -> bool, k: K)
    requires Tied(rest, key, le, k) == Tied(tail, key, le, k) + Tied([x], key, le, k)
    ensures Tied([h] + rest, key, le, k) == Tied([h] + tail, key, le, k) + Tied([x], key, le, k)
  {
    TiedConcat([h], rest, key, le, k);
    TiedConcat([h], tail, key, le, k);
  }

  /** sorted(xs, key=key): a permutation of `xs` in non-decreasing key order. */
  function SortBy<T(!new), K(!new)>(xs: seq<T>, key: T -> K, le: (K, K) -> bool): (r: seq<T>)
    requires TotalPreorder(le)
    ensures SortedBy(r, key, le)
    ensures multiset(r) == multiset(xs)
    ensures |r| == |xs|
  {
    if xs == [] then []
    else
      var init := xs[..|xs| - 1];
      assert xs == init + [xs[|xs| - 1]];
      var r := InsertBy(xs[|xs| - 1], SortBy(init, key, le), key, le);
      assert |r| == |multiset(r)|;
      r
  }

  /** The sort is stable: the elements of each key class keep their order in `xs`. */
  lemma {:induction false} SortByStable<T(!new), K(!new)>(xs: seq<T>, key: T -> K, le: (K, K) -> bool, k: K)
    requires TotalPreorder(le)
    ensures Tied(SortBy(xs, key, le), key, le, k) == Tied(xs, key, le, k)
    decreases |xs|
  {
    if xs != [] {
      var init := xs[..|xs| - 1];
      assert xs == init + [xs[|xs| - 1]];
      SortByStable(init, key, le, k);
      InsertByTied(xs[|xs| - 1], SortBy(init, key, le), key, le, k);
      TiedConcat(init, [xs[|xs| - 1]], key, le, k);
    }
  }

  function IntLe(a: int, b: int): bool { a <= b }

  lemma IntLeTotal()
    ensures TotalPreorder(IntLe)
  {
  }

  /** Python's ordering of str: lexicographic by code point, a proper prefix first. */
  function StrLe(a: string, b: string): bool
  {
    if a == [] then true
    else if b == [] then false
    else if a[0] != b[0] then a[0] < b[0]
    else StrLe(a[1..], b[1..])
  }

  lemma {:induction false} StrLeTotalAt(a: string, b: string)
    ensures StrLe(a, b) || StrLe(b, a)
  {
    if a != [] && b != [] && a[0] == b[0] {
      StrLeTotalAt(a[1..], b[1..]);
    }
  }

  lemma {:induction false} StrLeTransAt(a: string, b: string, c: string)
    requires StrLe(a, b) && StrLe(b, c)
    ensures StrLe(a, c)
  {
    if a != [] && b != [] && c != [] && a[0] == b[0] && b[0] == c[0] {
      StrLeTransAt(a[1..], b[1..], c[1..]);
    }
  }

  lemma StrLeAntisymmetric(a: string, b: string)
    requires StrLe(a, b) && StrLe(b, a)
    ensures a == b
  {
    if a != [] && b != [] {
      StrLeAntisymmetric(a[1..], b[1..]);
      assert a == [a[0]] + a[1..] && b == [b[0]] + b[1..];
    }
  }

  lemma StrLeTotal()
    ensures TotalPreorder(StrLe)
  {
    forall a, b ensures StrLe(a, b) || StrLe(b, a) { StrLeTotalAt(a, b); }
    forall a, b, c | StrLe(a, b) && StrLe(b, c) ensures StrLe(a, c) { StrLeTransAt(a, b, c); }
  }

  /** Python's ordering of a pair of strings: by the first, then by the second. */
  function PairLe(a: (string, string), b: (string, string)): bool
  {
    if a.0 == b.0 then StrLe(a.1, b.1) else StrLe(a.0, b.0)
  }

  lemma PairLeTotal()
    ensures TotalPreorder(PairLe)
  {
    forall a, b ensures PairLe(a, b) || PairLe(b, a) {
      StrLeTotalAt(a.0, b.0);
      StrLeTotalAt(a.1, b.1);
    }
    forall a, b, c | PairLe(a, b) && PairLe(b, c) ensures PairLe(a, c) {
      if a.0 == b.0 && b.0 == c.0 {
        StrLeTransAt(a.1, b.1, c.1);
      } else if a.0 == b.0 {
      } else if b.0 == c.0 {
      } else {
        StrLeTransAt(a.0, b.0, c.0);
        if a.0 == c.0 {
          StrLeAntisymmetric(a.0, b.0);
        }
      }
    }
  }
}
