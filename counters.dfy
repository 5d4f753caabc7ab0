/**
 * Python's `collections.Counter` and plain `dict`s from labels to integer
 * counts. A Python dict remembers insertion order, so a counter is modelled
 * as the sequence of its `(key, count)` items in that order; keys are
 * distinct (`Valid`), and entries whose count is 0 are kept, as Python keeps
 * them.
 */
module Counters {

  type Counter = seq<(string, int)>

  predicate Valid(c: Counter) {
    forall i, j | 0 <= i < j < |c| :: c[i].0 != c[j].0
  }

  function Keys(c: Counter): set<string> {
    set i | 0 <= i < |c| :: c[i].0
  }

  /** The keys in insertion order. */
  function KeySeq(c: Counter): (ks: seq<string>)
    ensures |ks| == |c| && forall i | 0 <= i < |c| :: ks[i] == c[i].0
  {
    seq(|c|, i requires 0 <= i < |c| => c[i].0)
  }

  /** `c[k]` on a Counter: the count stored for `k`, or 0 when `k` is absent. */
  function Get(c: Counter, k: string): int {
    if c == [] then 0 else if c[0].0 == k then c[0].1 else Get(c[1..], k)
  }

  /** `sum(c.values())`. */
  function Sum(c: Counter): int {
    if c == [] then 0 else c[0].1 + Sum(c[1..])
  }

  /** `c[k] += v`: adds `v` to the entry of `k`, or appends the entry `(k, v)`. */
  function Inc(c: Counter, k: string, v: int): Counter {
    if c == [] then [(k, v)]
    else if c[0].0 == k then [(k, c[0].1 + v)] + c[1..]
    else [c[0]] + Inc(c[1..], k, v)
  }

  /** `c.update(o)` for a mapping `o`: each item of `o`, in order, is added to `c`. */
  function Update(c: Counter, o: Counter): Counter
    decreases |o|
  {
    if o == [] then c else Update(Inc(c, o[0].0, o[0].1), o[1..])
  }

  /** `Counter(ls)`: how often each label occurs in `ls`, in order of first occurrence. */
  function Tally(ls: seq<string>): Counter {
    if ls == [] then [] else Inc(Tally(ls[..|ls| - 1]), ls[|ls| - 1], 1)
  }

  /** `a + b` on Counters: the sums per key, keeping only the positive ones. */
  function AddPositive(a: Counter, b: Counter): Counter {
    KeepPositive(seq(|a|, i requires 0 <= i < |a| => (a[i].0, a[i].1 + Get(b, a[i].0))))
    + KeepPositive(Without(b, Keys(a)))
  }

  function KeepPositive(c: Counter): Counter {
    if c == [] then [] else (if c[0].1 > 0 then [c[0]] else []) + KeepPositive(c[1..])
  }

  function Without(c: Counter, ks: set<string>): Counter {
    if c == [] then [] else (if c[0].0 in ks then [] else [c[0]]) + Without(c[1..], ks)
  }

  /** The sum of `Get(c, k)` over the keys `ks`. */
  function SumOver(c: Counter, ks: seq<string>): int {
    if ks == [] then 0 else Get(c, ks[0]) + SumOver(c, ks[1..])
  }

  predicate Distinct(ks: seq<string>) {
    forall i, j | 0 <= i < j < |ks| :: ks[i] != ks[j]
  }

  // ---------------------------------------------------------------- lemmas

  lemma {:induction false} GetAbsent(c: Counter, k: string)
    requires k !in Keys(c)
    ensures Get(c, k) == 0
  {
    if c != [] {
      assert c[0].0 in Keys(c);
      assert Keys(c[1..]) <= Keys(c) by {
        forall x | x in Keys(c[1..]) ensures x in Keys(c) {
          var i :| 0 <= i < |c[1..]| && c[1..][i].0 == x;
          assert c[i + 1].0 == x;
        }
      }
      GetAbsent(c[1..], k);
    }
  }

  lemma KeysCons(c: Counter)
    requires c != []
    ensures Keys(c) == {c[0].0} + Keys(c[1..])
  {
    forall x | x in Keys(c) ensures x in {c[0].0} + Keys(c[1..]) {
      var i :| 0 <= i < |c| && c[i].0 == x;
      if i > 0 {
        assert c[1..][i - 1].0 == x;
      }
    }
    forall x | x in Keys(c[1..]) ensures x in Keys(c) {
      var i :| 0 <= i < |c[1..]| && c[1..][i].0 == x;
      assert c[i + 1].0 == x;
    }
  }

  lemma ValidTail(c: Counter)
    requires c != [] && Valid(c)
    ensures Valid(c[1..]) && c[0].0 !in Keys(c[1..])
  {
    forall i, j | 0 <= i < j < |c[1..]| ensures c[1..][i].0 != c[1..][j].0 {
      assert c[1..][i] == c[i + 1] && c[1..][j] == c[j + 1];
    }
    forall t | 0 <= t < |c[1..]| ensures c[1..][t].0 != c[0].0 {
      assert c[1..][t] == c[t + 1];
    }
  }

  /** `c[k] += v` changes the count of `k` by `v` and no other count. */
  lemma {:induction false} IncGet(c: Counter, k: string, v: int)
    ensures forall j :: Get(Inc(c, k, v), j) == Get(c, j) + (if j == k then v else 0)
  {
    if c != [] && c[0].0 != k {
      IncGet(c[1..], k, v);
      assert Inc(c, k, v)[1..] == Inc(c[1..], k, v);
    }
  }

  lemma {:induction false} IncSum(c: Counter, k: string, v: int)
    ensures Sum(Inc(c, k, v)) == Sum(c) + v
  {
    if c != [] {
      if c[0].0 != k {
        IncSum(c[1..], k, v);
        assert Inc(c, k, v)[1..] == Inc(c[1..], k, v);
      } else {
        assert Inc(c, k, v)[1..] == c[1..];
      }
    }
  }

  lemma {:induction false} IncKeys(c: Counter, k: string, v: int)
    ensures Keys(Inc(c, k, v)) == Keys(c) + {k}
  {
    var r := Inc(c, k, v);
    if c == [] {
      KeysCons(r);
    } else {
      KeysCons(c);
      KeysCons(r);
      if c[0].0 == k {
        assert r[1..] == c[1..];
      } else {
        IncKeys(c[1..], k, v);
        assert r[1..] == Inc(c[1..], k, v);
      }
    }
  }

  lemma {:induction false} IncValid(c: Counter, k: string, v: int)
    requires Valid(c)
    ensures Valid(Inc(c, k, v))
  {
    var r := Inc(c, k, v);
    if c != [] {
      ValidTail(c);
      if c[0].0 == k {
        assert r[1..] == c[1..];
        forall i, j | 0 <= i < j < |r| ensures r[i].0 != r[j].0 {
          assert r[i].0 == c[i].0 && r[j].0 == c[j].0;
        }
      } else {
        IncValid(c[1..], k, v);
        IncKeys(c[1..], k, v);
        assert r[1..] == Inc(c[1..], k, v);
        forall i, j | 0 <= i < j < |r| ensures r[i].0 != r[j].0 {
          assert r[j] == r[1..][j - 1];
          if i == 0 {
            assert r[j].0 in Keys(r[1..]);
          } else {
            assert r[i] == r[1..][i - 1];
          }
        }
      }
    }
  }

  lemma IncFacts(c: Counter, k: string, v: int)
    ensures forall j :: Get(Inc(c, k, v), j) == Get(c, j) + (if j == k then v else 0)
    ensures Sum(Inc(c, k, v)) == Sum(c) + v
    ensures Keys(Inc(c, k, v)) == Keys(c) + {k}
    ensures Valid(c) ==> Valid(Inc(c, k, v))
  {
    IncGet(c, k, v);
    IncSum(c, k, v);
    IncKeys(c, k, v);
    if Valid(c) {
      IncValid(c, k, v);
    }
  }

  /** Updating with a mapping adds its counts key by key, and its total to the total. */
  lemma {:induction false} UpdateFacts(c: Counter, o: Counter)
    requires Valid(o)
    ensures forall k :: Get(Update(c, o), k) == Get(c, k) + Get(o, k)
    ensures Sum(Update(c, o)) == Sum(c) + Sum(o)
    ensures Keys(Update(c, o)) == Keys(c) + Keys(o)
    ensures Valid(c) ==> Valid(Update(c, o))
    decreases |o|
  {
    if o == [] {
      assert Keys(o) == {};
    } else {
      var c' := Inc(c, o[0].0, o[0].1);
      IncFacts(c, o[0].0, o[0].1);
      ValidTail(o);
      UpdateFacts(c', o[1..]);
      KeysCons(o);
      forall k ensures Get(Update(c, o), k) == Get(c, k) + Get(o, k) {
        if k == o[0].0 {
          GetAbsent(o[1..], k);
        }
      }
    }
  }

  /** `Counter(ls)` counts every label exactly as often as it occurs. */
  lemma {:induction false} TallyFacts(ls: seq<string>)
    ensures Valid(Tally(ls))
    ensures forall k :: Get(Tally(ls), k) == multiset(ls)[k]
    ensures Sum(Tally(ls)) == |ls|
    ensures forall k :: k in Keys(Tally(ls)) <==> k in ls
    ensures forall i | 0 <= i < |Tally(ls)| :: Tally(ls)[i].1 > 0
  {
    if ls != [] {
      var pre := ls[..|ls| - 1];
      var x := ls[|ls| - 1];
      TallyFacts(pre);
      IncFacts(Tally(pre), x, 1);
      assert ls == pre + [x];
      assert multiset(ls) == multiset(pre) + multiset{x};
      forall k ensures k in ls <==> k in pre || k == x {
      }
      TallyPositive(Tally(pre), x);
    }
  }

  lemma {:induction false} TallyPositive(c: Counter, x: string)
    requires forall i | 0 <= i < |c| :: c[i].1 > 0
    ensures forall i | 0 <= i < |Inc(c, x, 1)| :: Inc(c, x, 1)[i].1 > 0
  {
    if c != [] && c[0].0 != x {
      TallyPositive(c[1..], x);
      var r := Inc(c, x, 1);
      assert r[1..] == Inc(c[1..], x, 1);
      forall i | 0 <= i < |r| ensures r[i].1 > 0 {
        if i > 0 {
          assert r[i] == r[1..][i - 1];
        }
      }
    }
  }

  /** Summing over key lists is additive in the counters. */
  lemma {:induction false} SumOverAdd(a: Counter, b: Counter, d: Counter, ks: seq<string>)
    requires forall k :: Get(a, k) + Get(b, k) == Get(d, k)
    ensures SumOver(a, ks) + SumOver(b, ks) == SumOver(d, ks)
  {
    if ks != [] {
      SumOverAdd(a, b, d, ks[1..]);
    }
  }

  lemma {:induction false} SumOverSingle(k: string, v: int, ks: seq<string>)
    requires Distinct(ks)
    ensures SumOver([(k, v)], ks) == if k in ks then v else 0
  {
    if ks != [] {
      assert Distinct(ks[1..]) by {
        forall i, j | 0 <= i < j < |ks[1..]| ensures ks[1..][i] != ks[1..][j] {
          assert ks[1..][i] == ks[i + 1] && ks[1..][j] == ks[j + 1];
        }
      }
      SumOverSingle(k, v, ks[1..]);
      if ks[0] == k {
        forall t | 0 <= t < |ks[1..]| ensures ks[1..][t] != k {
          assert ks[1..][t] == ks[t + 1];
        }
      } else {
        assert [(k, v)][1..] == [];
        assert Get([(k, v)], ks[0]) == Get([], ks[0]) == 0;
        assert k in ks <==> k in ks[1..] by {
          assert ks == [ks[0]] + ks[1..];
        }
      }
    }
  }

  /**
   * The total of a counter is the sum of its counts over any duplicate-free
   * list of keys that includes every key with a non-zero count.
   */
  lemma {:induction false} SumByKeys(c: Counter, ks: seq<string>)
    requires Valid(c) && Distinct(ks)
    requires forall i | 0 <= i < |c| :: c[i].1 != 0 ==> c[i].0 in ks
    ensures Sum(c) == SumOver(c, ks)
  {
    if c == [] {
      SumOverZero(c, ks);
    } else {
      var c' := c[1..];
      ValidTail(c);
      forall i | 0 <= i < |c'| ensures c'[i].1 != 0 ==> c'[i].0 in ks {
        assert c'[i] == c[i + 1];
      }
      SumByKeys(c', ks);
      GetAbsent(c', c[0].0);
      forall k ensures Get(c', k) + Get([c[0]], k) == Get(c, k) {
      }
      SumOverAdd(c', [c[0]], c, ks);
      SumOverSingle(c[0].0, c[0].1, ks);
      assert [c[0]] == [(c[0].0, c[0].1)];
    }
  }

  lemma {:induction false} SumOverZero(c: Counter, ks: seq<string>)
    requires c == []
    ensures SumOver(c, ks) == 0
  {
    if ks != [] {
      SumOverZero(c, ks[1..]);
    }
  }

  lemma KeysSubset(c: Counter)
    ensures forall i | 0 <= i < |c| :: c[i].0 in Keys(c)
  {
  }

  /** `AddPositive(a, b)[k]` for a key of `a`: the sum if it is positive, else 0. */
  lemma {:induction false} GetAddPositive(a: Counter, b: Counter, k: string)
    requires Valid(a) && k in Keys(a)
    ensures Get(AddPositive(a, b), k) == if Get(a, k) + Get(b, k) > 0 then Get(a, k) + Get(b, k) else 0
  {
    var s := seq(|a|, i requires 0 <= i < |a| => (a[i].0, a[i].1 + Get(b, a[i].0)));
    GetSummed(a, b, k);
    GetKeepPositive(s, k);
    WithoutKeys(b, Keys(a));
    var rest := KeepPositive(Without(b, Keys(a)));
    GetConcat(KeepPositive(s), rest, k);
    KeepPositiveKeys(Without(b, Keys(a)));
    GetAbsent(rest, k);
    if k !in Keys(KeepPositive(s)) {
      GetAbsent(KeepPositive(s), k);
    }
  }

  lemma {:induction false} GetSummed(a: Counter, b: Counter, k: string)
    requires Valid(a) && k in Keys(a)
    ensures var s := seq(|a|, i requires 0 <= i < |a| => (a[i].0, a[i].1 + Get(b, a[i].0)));
            Valid(s) && k in Keys(s) && Get(s, k) == Get(a, k) + Get(b, k)
  {
    var s := seq(|a|, i requires 0 <= i < |a| => (a[i].0, a[i].1 + Get(b, a[i].0)));
    KeysCons(a);
    ValidTail(a);
    assert s[0] == (a[0].0, a[0].1 + Get(b, a[0].0));
    if a[0].0 != k {
      GetSummed(a[1..], b, k);
      var s' := seq(|a[1..]|, i requires 0 <= i < |a[1..]| => (a[1..][i].0, a[1..][i].1 + Get(b, a[1..][i].0)));
      assert s[1..] == s';
      KeysCons(s);
    } else {
      KeysCons(s);
    }
    forall i, j | 0 <= i < j < |s| ensures s[i].0 != s[j].0 {
      assert s[i].0 == a[i].0 && s[j].0 == a[j].0;
    }
  }

  lemma {:induction false} GetKeepPositive(s: Counter, k: string)
    requires Valid(s) && k in Keys(s)
    ensures Get(KeepPositive(s), k) == if Get(s, k) > 0 then Get(s, k) else 0
  {
    KeysCons(s);
    ValidTail(s);
    KeepPositiveKeys(s[1..]);
    if s[0].0 == k {
      if s[0].1 <= 0 {
        assert KeepPositive(s) == KeepPositive(s[1..]);
        GetAbsent(KeepPositive(s[1..]), k);
      }
    } else {
      GetKeepPositive(s[1..], k);
      if s[0].1 > 0 {
        assert KeepPositive(s)[1..] == KeepPositive(s[1..]);
      } else {
        assert KeepPositive(s) == KeepPositive(s[1..]);
      }
    }
  }

  lemma {:induction false} KeepPositiveKeys(c: Counter)
    ensures Keys(KeepPositive(c)) <= Keys(c)
  {
    if c != [] {
      KeepPositiveKeys(c[1..]);
      KeysCons(c);
      var r := KeepPositive(c);
      if c[0].1 > 0 {
        KeysCons(r);
        assert r[1..] == KeepPositive(c[1..]);
      }
    }
  }

  lemma {:induction false} WithoutKeys(c: Counter, ks: set<string>)
    ensures Keys(Without(c, ks)) !! ks
  {
    if c != [] {
      WithoutKeys(c[1..], ks);
      var r := Without(c, ks);
      if c[0].0 !in ks {
        KeysCons(r);
        assert r[1..] == Without(c[1..], ks);
      }
    }
  }

  lemma {:induction false} GetConcat(a: Counter, b: Counter, k: string)
    ensures k in Keys(a) ==> Get(a + b, k) == Get(a, k)
    ensures k !in Keys(a) ==> Get(a + b, k) == Get(b, k)
  {
    if a == [] {
      assert a + b == b;
    } else {
      KeysCons(a);
      assert (a + b)[1..] == a[1..] + b;
      GetConcat(a[1..], b, k);
    }
  }

  /** In a counter with distinct keys, the count of the key at position `q` is the count stored there. */
  lemma {:induction false} GetAt(c: Counter, q: nat)
    requires Valid(c) && q < |c|
    ensures Get(c, c[q].0) == c[q].1
  {
    if q > 0 {
      ValidTail(c);
      assert c[1..][q - 1] == c[q];
      GetAt(c[1..], q - 1);
    }
  }

  /** Incrementing never reorders the existing keys: the old key order is a prefix of the new one. */
  lemma {:induction false} IncKeySeq(c: Counter, k: string, v: int)
    ensures KeySeq(c) <= KeySeq(Inc(c, k, v))
  {
    if c != [] && c[0].0 != k {
      IncKeySeq(c[1..], k, v);
      var r := Inc(c, k, v);
      assert r[1..] == Inc(c[1..], k, v);
      assert KeySeq(c)[1..] == KeySeq(c[1..]);
      assert KeySeq(r)[1..] == KeySeq(r[1..]);
    }
  }

  /**
   * `Counter(ls)` lists its keys in order of first occurrence: counting a
   * prefix of `ls` gives a prefix of the key order.
   */
  lemma {:induction false} TallyPrefix(ls: seq<string>, n: nat)
    requires n <= |ls|
    ensures KeySeq(Tally(ls[..n])) <= KeySeq(Tally(ls))
    decreases |ls|
  {
    if n < |ls| {
      var pre := ls[..|ls| - 1];
      assert ls[..n] == pre[..n];
      TallyPrefix(pre, n);
      IncKeySeq(Tally(pre), ls[|ls| - 1], 1);
    } else {
      assert ls[..n] == ls;
    }
  }

  /** Counting one more label is one increment. */
  lemma TallySnoc(ls: seq<string>, x: string)
    ensures Tally(ls + [x]) == Inc(Tally(ls), x, 1)
  {
    assert (ls + [x])[..|ls|] == ls;
  }

  lemma KeySeqKeys(c: Counter)
    ensures forall k :: k in KeySeq(c) <==> k in Keys(c)
    ensures Valid(c) ==> Distinct(KeySeq(c))
  {
    forall k | k in Keys(c) ensures k in KeySeq(c) {
      var i :| 0 <= i < |c| && c[i].0 == k;
      assert KeySeq(c)[i] == k;
    }
  }

  /**
   * A counter `d` with the keys of `c`, position by position: it has the
   * same key set, distinct keys when `c` has them, and each stored count is
   * found by lookup.
   */
  lemma SameKeys(c: Counter, d: Counter)
    requires Valid(c) && |d| == |c| && forall i | 0 <= i < |c| :: d[i].0 == c[i].0
    ensures Valid(d) && Keys(d) == Keys(c)
    ensures forall q | 0 <= q < |d| :: Get(d, d[q].0) == d[q].1
  {
    forall k | k in Keys(c) ensures k in Keys(d) {
      var i :| 0 <= i < |c| && c[i].0 == k;
      assert d[i].0 == k;
    }
    forall q | 0 <= q < |d| ensures Get(d, d[q].0) == d[q].1 {
      GetAt(d, q);
    }
  }

  /** `{k: v - t.get(k, 0) for k, v in c.items()}`. */
  function Subtract(c: Counter, t: Counter): (d: Counter)
    ensures |d| == |c| && forall i | 0 <= i < |c| :: d[i].0 == c[i].0
  {
    seq(|c|, i requires 0 <= i < |c| => (c[i].0, c[i].1 - Get(t, c[i].0)))
  }

  lemma {:induction false} SubtractFacts(c: Counter, t: Counter)
    requires Valid(c)
    ensures Valid(Subtract(c, t)) && Keys(Subtract(c, t)) == Keys(c)
    ensures forall k :: Get(Subtract(c, t), k) == if k in Keys(c) then Get(c, k) - Get(t, k) else 0
    ensures Sum(Subtract(c, t)) == Sum(c) - SumOver(t, KeySeq(c))
  {
    var d := Subtract(c, t);
    SameKeys(c, d);
    forall k ensures Get(d, k) == if k in Keys(c) then Get(c, k) - Get(t, k) else 0 {
      if k in Keys(c) {
        var q :| 0 <= q < |c| && c[q].0 == k;
        GetAt(c, q);
      } else {
        GetAbsent(d, k);
      }
    }
    SubtractSum(c, t);
  }

  lemma {:induction false} SubtractSum(c: Counter, t: Counter)
    ensures Sum(Subtract(c, t)) == Sum(c) - SumOver(t, KeySeq(c))
  {
    if c != [] {
      SubtractSum(c[1..], t);
      assert Subtract(c, t)[1..] == Subtract(c[1..], t);
      assert KeySeq(c)[1..] == KeySeq(c[1..]);
    }
  }

  /** `{k: min(b[k], v) for k, v in a.items()}`. */
  function MinWith(a: Counter, b: Counter): (d: Counter)
    ensures |d| == |a| && forall i | 0 <= i < |a| :: d[i].0 == a[i].0
  {
    seq(|a|, i requires 0 <= i < |a| => (a[i].0, if Get(b, a[i].0) < a[i].1 then Get(b, a[i].0) else a[i].1))
  }

  lemma MinWithFacts(a: Counter, b: Counter)
    requires Valid(a)
    ensures Valid(MinWith(a, b)) && Keys(MinWith(a, b)) == Keys(a)
    ensures forall k :: Get(MinWith(a, b), k) == (if k !in Keys(a) then 0 else if Get(b, k) < Get(a, k) then Get(b, k) else Get(a, k))
  {
    var d := MinWith(a, b);
    SameKeys(a, d);
    forall k ensures Get(d, k) == if k !in Keys(a) then 0 else if Get(b, k) < Get(a, k) then Get(b, k) else Get(a, k) {
      if k in Keys(a) {
        var q :| 0 <= q < |a| && a[q].0 == k;
        GetAt(a, q);
      } else {
        GetAbsent(d, k);
      }
    }
  }

  /** A counter whose lookups are never negative has a non-negative total. */
  lemma {:induction false} SumNonneg(c: Counter)
    requires Valid(c) && forall k :: Get(c, k) >= 0
    ensures Sum(c) >= 0
  {
    if c != [] {
      ValidTail(c);
      forall k ensures Get(c[1..], k) >= 0 {
        if k == c[0].0 {
          GetAbsent(c[1..], k);
        } else {
          assert Get(c, k) >= 0;
        }
      }
      SumNonneg(c[1..]);
      assert Get(c, c[0].0) >= 0;
    }
  }
}
