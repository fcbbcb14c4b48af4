/**
 * Sorting by a key under a total preorder, and the distinct values of a
 * sequence in order of first occurrence: the two steps `sort_values` and
 * `unique` perform on a data frame column.
 */
module Sorting {
  import opened Wrappers

  /** `le` compares any two keys and is transitive. */
  ghost predicate TotalPreorder<K(!new)>(le: (K, K) -> bool)
  {
    && (forall a, b :: le(a, b) || le(b, a))
    && (forall a, b, c :: le(a, b) && le(b, c) ==> le(a, c))
  }

  /** Keys never decrease along `xs`. */
  ghost predicate SortedBy<T, K>(xs: seq<T>, key: T -> K, le: (K, K) -> bool)
  {
    forall i, j :: 0 <= i < j < |xs| ==> le(key(xs[i]), key(xs[j]))
  }

  /** `x` placed before the first element whose key is not below its own. */
  function InsertBy<T, K(!new)>(x: T, xs: seq<T>, key: T -> K, le: (K, K) -> bool): (r: seq<T>)
    requires TotalPreorder(le) && SortedBy(xs, key, le)
    ensures multiset(r) == multiset(xs) + multiset{x}
    ensures SortedBy(r, key, le)
  {
    if xs == [] then [x]
    else if le(key(x), key(xs[0])) then
      PrependSorted(x, xs, key, le);
      [x] + xs
    else
      var rest := InsertBy(x, xs[1..], key, le);
      assert xs == [xs[0]] + xs[1..];
      HeadBelowRest(x, xs, rest, key, le);
      PrependSorted(xs[0], rest, key, le);
      [xs[0]] + rest
  }

  /** A sorted sequence stays sorted behind an element whose key is below its first. */
  lemma PrependSorted<T, K(!new)>(y: T, xs: seq<T>, key: T -> K, le: (K, K) -> bool)
    requires TotalPreorder(le) && SortedBy(xs, key, le)
    requires xs == [] || le(key(y), key(xs[0]))
    ensures SortedBy([y] + xs, key, le)
  {
    var r := [y] + xs;
    forall i, j | 0 <= i < j < |r| ensures le(key(r[i]), key(r[j])) {
      if i == 0 && j > 1 {
        assert le(key(y), key(xs[0])) && le(key(xs[0]), key(xs[j - 1]));
      }
    }
  }

  /** The head of a sorted sequence is below every element of the rest with `x` inserted, `x` included. */
  lemma HeadBelowRest<T, K(!new)>(x: T, xs: seq<T>, rest: seq<T>, key: T -> K, le: (K, K) -> bool)
    requires TotalPreorder(le) && SortedBy(xs, key, le)
    requires xs != [] && !le(key(x), key(xs[0]))
    requires multiset(rest) == multiset(xs[1..]) + multiset{x}
    ensures rest == [] || le(key(xs[0]), key(rest[0]))
  {
    if rest != [] {
      assert rest[0] in multiset(rest);
      if rest[0] != x {
        assert rest[0] in xs[1..];
        var k :| 0 <= k < |xs[1..]| && xs[1..][k] == rest[0];
        assert xs[k + 1] == rest[0];
      }
    }
  }

  /** `xs` ordered by key: a permutation of `xs` whose keys never decrease. */
  function SortBy<T, K(!new)>(xs: seq<T>, key: T -> K, le: (K, K) -> bool): (r: seq<T>)
    requires TotalPreorder(le)
    ensures multiset(r) == multiset(xs)
    ensures SortedBy(r, key, le)
  {
    if xs == [] then []
    else
      assert xs == [xs[0]] + xs[1..];
      InsertBy(xs[0], SortBy(xs[1..], key, le), key, le)
  }

  /** The distinct elements of `xs`, each once, in order of first occurrence. */
  function Unique<T(==,!new)>(xs: seq<T>): (u: seq<T>)
    ensures Distinct(u)
    ensures forall x :: x in u <==> x in xs
    ensures forall a, b :: 0 <= a < b < |u| ==> IndexIn(xs, u[a]) < IndexIn(xs, u[b])
  {
    if xs == [] then []
    else
      var init := xs[..|xs| - 1];
      var last := xs[|xs| - 1];
      var u := Unique(init);
      assert xs == init + [last];
      forall x | x in init ensures IndexIn(xs, x) == IndexIn(init, x) {
        FirstIndexInPrefix(init, last, x);
      }
      if last in u then u
      else
        assert IndexIn(xs, last) == |xs| - 1 by {
          assert forall j :: 0 <= j < |init| ==> xs[j] != last;
        }
        u + [last]
  }

  /** An element of `xs` is first found at the same place in `xs + [y]`. */
  lemma FirstIndexInPrefix<T>(xs: seq<T>, y: T, x: T)
    requires x in xs
    ensures IndexIn(xs + [y], x) == IndexIn(xs, x)
  {
    var k := IndexIn(xs, x);
    var zs := xs + [y];
    assert zs[k] == x;
    assert forall j :: 0 <= j < k ==> zs[j] == xs[j];
  }
}
