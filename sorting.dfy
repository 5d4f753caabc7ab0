/**
 * Python's `sorted` on strings and on dictionary items, with the `<=` order
 * of Python strings. The sort here picks the least element first; any two
 * sorted arrangements of the same elements agree (`SortedUnique`) as long as
 * equal keys mean equal elements, which holds for strings and for the items
 * of a dictionary, so this is the order `sorted` produces.
 */
module Sorting {
  import opened PyText

  predicate SortedBy<T>(xs: seq<T>, key: T -> string) {
    forall i, j | 0 <= i < j < |xs| :: LexLe(key(xs[i]), key(xs[j]))
  }

  /** The position of a least element of `xs`. */
  function MinIndex<T>(xs: seq<T>, key: T -> string): (m: nat)
    requires xs != []
    ensures m < |xs| && forall k | 0 <= k < |xs| :: LexLe(key(xs[m]), key(xs[k]))
    decreases |xs|
  {
    if |xs| == 1 then LexLeRefl(key(xs[0])); 0
    else
      var m := MinIndex(xs[1..], key);
      MinStep(xs, key, m);
      if LexLe(key(xs[0]), key(xs[1..][m])) then 0 else m + 1
  }

  lemma {:induction false} LexLeRefl(a: string)
    ensures LexLe(a, a)
    decreases |a|
  {
    if a != [] {
      LexLeRefl(a[1..]);
    }
  }

  lemma MinStep<T>(xs: seq<T>, key: T -> string, m: nat)
    requires |xs| > 1 && m < |xs| - 1
    requires forall k | 0 <= k < |xs| - 1 :: LexLe(key(xs[1..][m]), key(xs[1..][k]))
    ensures LexLe(key(xs[0]), key(xs[m + 1])) ==> forall k | 0 <= k < |xs| :: LexLe(key(xs[0]), key(xs[k]))
    ensures !LexLe(key(xs[0]), key(xs[m + 1])) ==> forall k | 0 <= k < |xs| :: LexLe(key(xs[m + 1]), key(xs[k]))
  {
    LexLeRefl(key(xs[0]));
    LexLeTotal(key(xs[0]), key(xs[m + 1]));
    forall k | 1 <= k < |xs|
      ensures LexLe(key(xs[m + 1]), key(xs[k]))
      ensures LexLe(key(xs[0]), key(xs[m + 1])) ==> LexLe(key(xs[0]), key(xs[k]))
    {
      assert xs[1..][k - 1] == xs[k];
      if LexLe(key(xs[0]), key(xs[m + 1])) {
        LexLeTrans(key(xs[0]), key(xs[m + 1]), key(xs[k]));
      }
    }
  }

  /** `sorted(xs, key=key)`: the elements of `xs`, rearranged into ascending order of `key`. */
  function SortBy<T(==)>(xs: seq<T>, key: T -> string): (r: seq<T>)
    ensures multiset(r) == multiset(xs)
    ensures SortedBy(r, key)
    decreases |xs|
  {
    if xs == [] then []
    else
      var m := MinIndex(xs, key);
      var tail := SortBy(xs[..m] + xs[m + 1..], key);
      SortStep(xs, key, m, tail);
      [xs[m]] + tail
  }

  lemma SortStep<T>(xs: seq<T>, key: T -> string, m: nat, tail: seq<T>)
    requires m < |xs| && forall k | 0 <= k < |xs| :: LexLe(key(xs[m]), key(xs[k]))
    requires multiset(tail) == multiset(xs[..m] + xs[m + 1..]) && SortedBy(tail, key)
    ensures multiset([xs[m]] + tail) == multiset(xs)
    ensures SortedBy([xs[m]] + tail, key)
  {
    assert xs == xs[..m] + [xs[m]] + xs[m + 1..];
    assert multiset(xs) == multiset(xs[..m]) + multiset{xs[m]} + multiset(xs[m + 1..]);
    assert multiset(xs[..m] + xs[m + 1..]) == multiset(xs[..m]) + multiset(xs[m + 1..]);
    var r := [xs[m]] + tail;
    forall i, j | 0 <= i < j < |r| ensures LexLe(key(r[i]), key(r[j])) {
      if i == 0 {
        assert r[j] == tail[j - 1] && tail[j - 1] in multiset(tail);
        assert r[j] in multiset(xs);
        var k :| 0 <= k < |xs| && xs[k] == r[j];
      } else {
        assert r[i] == tail[i - 1] && r[j] == tail[j - 1];
      }
    }
  }

  /** Elements of `xs` with equal keys are equal. */
  predicate KeyInjective<T(==)>(xs: seq<T>, key: T -> string) {
    forall i, j | 0 <= i < |xs| && 0 <= j < |xs| && key(xs[i]) == key(xs[j]) :: xs[i] == xs[j]
  }

  lemma SortedHeads<T>(a: seq<T>, b: seq<T>, key: T -> string)
    requires a != [] && multiset(a) == multiset(b) && SortedBy(a, key) && SortedBy(b, key)
    requires KeyInjective(a, key)
    ensures b != [] && a[0] == b[0]
  {
    assert |b| == |multiset(b)| == |a|;
    assert a[0] in multiset(b) && b[0] in multiset(a);
    var k :| 0 <= k < |b| && b[k] == a[0];
    var l :| 0 <= l < |a| && a[l] == b[0];
    LexLeRefl(key(a[0]));
    LexLeRefl(key(b[0]));
    assert LexLe(key(b[0]), key(a[0])) && LexLe(key(a[0]), key(b[0]));
    LexLeAntisym(key(a[0]), key(b[0]));
    assert key(a[0]) == key(a[l]);
  }

  lemma SortedTail<T>(a: seq<T>, key: T -> string)
    requires a != [] && SortedBy(a, key) && KeyInjective(a, key)
    ensures SortedBy(a[1..], key) && KeyInjective(a[1..], key)
  {
    forall i | 0 <= i < |a| - 1 ensures a[1..][i] == a[i + 1] {
    }
  }

  lemma MultisetTail<T>(a: seq<T>, b: seq<T>)
    requires a != [] && b != [] && a[0] == b[0] && multiset(a) == multiset(b)
    ensures multiset(a[1..]) == multiset(b[1..])
  {
    assert a == [a[0]] + a[1..] && b == [b[0]] + b[1..];
    assert multiset(a) == multiset{a[0]} + multiset(a[1..]);
    assert multiset(b) == multiset{b[0]} + multiset(b[1..]);
    forall z ensures multiset(a[1..])[z] == multiset(b[1..])[z] {
      assert multiset(a)[z] == multiset(b)[z];
    }
  }

  /**
   * Two ascending arrangements of the same elements are the same sequence,
   * when elements with equal keys are equal.
   */
  lemma {:induction false} SortedUnique<T>(a: seq<T>, b: seq<T>, key: T -> string)
    requires multiset(a) == multiset(b) && SortedBy(a, key) && SortedBy(b, key)
    requires KeyInjective(a, key)
    ensures a == b
    decreases |a|
  {
    if a == [] {
      assert |b| == |multiset(b)| == 0;
    } else {
      SortedHeads(a, b, key);
      MultisetTail(a, b);
      SortedTail(a, key);
      assert SortedBy(b[1..], key) by {
        forall i | 0 <= i < |b| - 1 ensures b[1..][i] == b[i + 1] {
        }
      }
      SortedUnique(a[1..], b[1..], key);
      assert a == [a[0]] + a[1..] && b == [b[0]] + b[1..];
    }
  }
}
