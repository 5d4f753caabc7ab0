/**
 * The overlap linker of the intrinsic evaluation: which phrase chunks share
 * tokens with which gold chunks, the label each phrase chunk receives, the
 * gold chunks reported as false negatives, and the index filter that keeps
 * every phrase chunk not labelled `"o"`.
 */
module Intrinsic {
  import opened Results
  import opened Utils
  import opened Sequence

  /** A `(begin, end)` pair, as `calculate_shared` receives it. */
  type Interval = (int, int)

  // ----------------------------------------------------- calculate_shared

  /**
   * The test `calculate_shared` applies to one candidate `c` against `a`:
   * not entirely before or after, and then one of its five overlap cases.
   */
  predicate Shares(a: Interval, c: Interval) {
    !(c.1 < a.0 || a.1 < c.0) &&
    ((a.0 == c.0 && a.1 == c.1) ||
     (c.0 <= a.0 < c.1) ||
     (c.0 < a.1 <= c.1) ||
     (a.0 <= c.0 && a.1 >= c.1) ||
     (c.0 <= a.0 && c.1 >= a.1))
  }

  /** The test does not depend on which side is `a`. */
  lemma SharesSymmetric(a: Interval, c: Interval)
    ensures Shares(a, c) <==> Shares(c, a)
  {
  }

  /**
   * For non-empty intervals the loose first guard and the five cases add up
   * to a non-empty half-open intersection: touching intervals do not share.
   */
  lemma SharesHalfOpen(a: Interval, c: Interval)
    requires a.0 < a.1 && c.0 < c.1
    ensures Shares(a, c) <==> c.0 < a.1 && a.0 < c.1
  {
  }

  /** The indices of `b` whose interval shares with `a`, in increasing order. */
  function SharedWith(a: Interval, b: seq<Interval>): (r: seq<nat>)
    ensures forall j | 0 <= j < |r| :: r[j] < |b| && Shares(a, b[r[j]])
    ensures forall i | 0 <= i < |b| && Shares(a, b[i]) :: i in r
    ensures forall j, k | 0 <= j < k < |r| :: r[j] < r[k]
  {
    if b == [] then []
    else
      var n := |b| - 1;
      SharedWith(a, b[..n]) + (if Shares(a, b[n]) then [n] else [])
  }

  /** `calculate_shared`: the loop over `b` with its early `continue`s. */
  method CalculateShared(a: Interval, b: seq<Interval>) returns (shr: seq<nat>)
    ensures shr == SharedWith(a, b)
  {
    var (start1, end1) := a;
    shr := [];
    for idx := 0 to |b|
      invariant shr == SharedWith(a, b[..idx])
    {
      assert b[..idx + 1][..idx] == b[..idx];
      var (start, end) := b[idx];
      if end < start1 || end1 < start {
      } else if start1 == start && end1 == end {
        shr := shr + [idx];
      } else if start <= start1 < end {
        shr := shr + [idx];
      } else if start < end1 <= end {
        shr := shr + [idx];
      } else if start1 <= start && end1 >= end {
        shr := shr + [idx];
      } else if start <= start1 && end >= end1 {
        shr := shr + [idx];
      }
    }
    assert b[..|b|] == b;
  }

  // ------------------------------------------------------- shared tables

  function Bounds(xs: seq<Span>): (r: seq<Interval>)
    ensures |r| == |xs| && forall i | 0 <= i < |xs| :: r[i] == (xs[i].begin, xs[i].end)
  {
    seq(|xs|, i requires 0 <= i < |xs| => (xs[i].begin, xs[i].end))
  }

  /** `t[i]` lists the chunks of `ys` that chunk `i` of `xs` shares with. */
  predicate TableOf(t: seq<seq<nat>>, xs: seq<Span>, ys: seq<Span>) {
    |t| == |xs| && forall i | 0 <= i < |xs| :: t[i] == SharedWith((xs[i].begin, xs[i].end), Bounds(ys))
  }

  function SharedTable(xs: seq<Span>, ys: seq<Span>): (t: seq<seq<nat>>)
    ensures TableOf(t, xs, ys)
  {
    seq(|xs|, i requires 0 <= i < |xs| => SharedWith((xs[i].begin, xs[i].end), Bounds(ys)))
  }

  /**
   * `gs[g]` lists the phrase chunks gold chunk `g` shares with and `ps[x]`
   * the gold chunks phrase chunk `x` shares with; each side's lists point
   * into the other side and the two agree.
   */
  predicate Mirrored(gs: seq<seq<nat>>, ps: seq<seq<nat>>) {
    (forall g, j | 0 <= g < |gs| && 0 <= j < |gs[g]| :: gs[g][j] < |ps|) &&
    (forall x, j | 0 <= x < |ps| && 0 <= j < |ps[x]| :: ps[x][j] < |gs|) &&
    (forall g, x | 0 <= g < |gs| && 0 <= x < |ps| :: x in gs[g] <==> g in ps[x])
  }

  /** The two passes of `overlap` see the same relation from its two sides. */
  lemma TablesMirrored(gold: seq<Span>, phrase: seq<Span>)
    ensures Mirrored(SharedTable(gold, phrase), SharedTable(phrase, gold))
  {
    var gs, ps := SharedTable(gold, phrase), SharedTable(phrase, gold);
    forall g, x | 0 <= g < |gs| && 0 <= x < |ps|
      ensures x in gs[g] <==> g in ps[x]
    {
      SharesSymmetric((gold[g].begin, gold[g].end), (phrase[x].begin, phrase[x].end));
    }
  }

  /** The tables and the gold labels `overlap` works from. */
  predicate Linker(gs: seq<seq<nat>>, ps: seq<seq<nat>>, kinds: seq<string>) {
    Mirrored(gs, ps) && |kinds| == |gs|
  }

  // --------------------------------------------------- the linked pairs

  /** Gold `g` shares with exactly one phrase chunk, which shares with exactly one gold chunk. */
  predicate IsLinked(gs: seq<seq<nat>>, ps: seq<seq<nat>>, g: int)
    requires Mirrored(gs, ps) && 0 <= g < |gs|
  {
    |gs[g]| == 1 && |ps[gs[g][0]]| == 1
  }

  /**
   * The label `overlap` gives phrase chunk `x`: `"np"` when it shares with
   * no gold chunk, the gold label when it is one half of a one-to-one pair,
   * `"o"` otherwise.
   */
  function Label(gs: seq<seq<nat>>, ps: seq<seq<nat>>, kinds: seq<string>, x: int): string
    requires Linker(gs, ps, kinds) && 0 <= x < |ps|
  {
    var s := ps[x];
    if |s| == 0 then "np"
    else if |s| == 1 && |gs[s[0]]| == 1 then kinds[s[0]]
    else "o"
  }

  function Labels(gs: seq<seq<nat>>, ps: seq<seq<nat>>, kinds: seq<string>): (r: seq<string>)
    requires Linker(gs, ps, kinds)
    ensures |r| == |ps| && forall x | 0 <= x < |ps| :: r[x] == Label(gs, ps, kinds, x)
  {
    seq(|ps|, x requires 0 <= x < |ps| => Label(gs, ps, kinds, x))
  }

  /**
   * A phrase label in terms of the relation alone: the label of gold `g`
   * when each of the two shares with the other only, `"np"` when no gold
   * chunk shares with the phrase chunk, `"o"` in every other case.
   */
  lemma LabelCases(gs: seq<seq<nat>>, ps: seq<seq<nat>>, kinds: seq<string>, x: int)
    requires Linker(gs, ps, kinds) && 0 <= x < |ps|
    ensures forall g | 0 <= g < |gs| && gs[g] == [x] && ps[x] == [g] :: Label(gs, ps, kinds, x) == kinds[g]
    ensures (forall g | 0 <= g < |gs| :: x !in gs[g]) ==> Label(gs, ps, kinds, x) == "np"
    ensures (exists g | 0 <= g < |gs| :: x in gs[g]) &&
            (forall g | 0 <= g < |gs| :: !(gs[g] == [x] && ps[x] == [g])) ==>
      Label(gs, ps, kinds, x) == "o"
  {
    var s := ps[x];
    if |s| == 0 {
      assert forall g | 0 <= g < |gs| :: x !in gs[g];
    } else if |s| == 1 && |gs[s[0]]| == 1 {
      var g := s[0];
      assert x in gs[g];
      assert gs[g] == [x] && s == [g];
    } else if |s| == 1 {
      forall g | 0 <= g < |gs| && gs[g] == [x] ensures ps[x] != [g] {
        assert g in s;
      }
    } else {
      forall g | 0 <= g < |gs| ensures ps[x] != [g] {
      }
    }
  }

  /** A one-to-one pair is seen alike from either side, and the phrase chunk takes the gold label. */
  lemma LinkedPair(gs: seq<seq<nat>>, ps: seq<seq<nat>>, kinds: seq<string>, g: int)
    requires Linker(gs, ps, kinds) && 0 <= g < |gs| && IsLinked(gs, ps, g)
    ensures var x := gs[g][0];
      gs[g] == [x] && ps[x] == [g] && Label(gs, ps, kinds, x) == kinds[g]
  {
    var x := gs[g][0];
    assert g in ps[x];
    assert gs[g] == [x] && ps[x] == [g];
  }

  /** The gold chunks below `n` in no one-to-one pair, in gold order. */
  function Unlinked(gs: seq<seq<nat>>, ps: seq<seq<nat>>, n: nat): (r: seq<nat>)
    requires Mirrored(gs, ps) && n <= |gs|
    ensures forall j | 0 <= j < |r| :: r[j] < n && !IsLinked(gs, ps, r[j])
    ensures forall g | 0 <= g < n && !IsLinked(gs, ps, g) :: g in r
    ensures forall j, k | 0 <= j < k < |r| :: r[j] < r[k]
  {
    if n == 0 then []
    else Unlinked(gs, ps, n - 1) + (if IsLinked(gs, ps, n - 1) then [] else [n - 1])
  }

  /** The false-negative records `(label, "np")` of the given gold chunks. */
  function Records(kinds: seq<string>, idx: seq<nat>): (r: seq<(string, string)>)
    requires forall j | 0 <= j < |idx| :: idx[j] < |kinds|
    ensures |r| == |idx| && forall j | 0 <= j < |idx| :: r[j] == (kinds[idx[j]], "np")
  {
    seq(|idx|, j requires 0 <= j < |idx| => (kinds[idx[j]], "np"))
  }

  function Misses(gs: seq<seq<nat>>, ps: seq<seq<nat>>, kinds: seq<string>): seq<(string, string)>
    requires Linker(gs, ps, kinds)
  {
    Records(kinds, Unlinked(gs, ps, |gs|))
  }

  // ------------------------------------------------ the two passes, closed

  /**
   * The label of phrase chunk `y` after the first pass has visited the gold
   * chunks below `n`: set by the last of them that shares with it.
   */
  function FirstPass(gs: seq<seq<nat>>, kinds: seq<string>, n: nat, y: int): string
    requires n <= |gs| == |kinds|
  {
    if n == 0 then "np"
    else if y in gs[n - 1] then (if |gs[n - 1]| == 1 then kinds[n - 1] else "o")
    else FirstPass(gs, kinds, n - 1, y)
  }

  lemma {:induction false} FirstPassNone(gs: seq<seq<nat>>, kinds: seq<string>, n: nat, y: int)
    requires n <= |gs| == |kinds|
    requires forall h | 0 <= h < n :: y !in gs[h]
    ensures FirstPass(gs, kinds, n, y) == "np"
  {
    if n > 0 {
      FirstPassNone(gs, kinds, n - 1, y);
    }
  }

  lemma {:induction false} FirstPassOnly(gs: seq<seq<nat>>, kinds: seq<string>, n: nat, y: int, h: int)
    requires n <= |gs| == |kinds| && 0 <= h < n && y in gs[h]
    requires forall h' | 0 <= h' < n && h' != h :: y !in gs[h']
    ensures FirstPass(gs, kinds, n, y) == if |gs[h]| == 1 then kinds[h] else "o"
  {
    if h < n - 1 {
      FirstPassOnly(gs, kinds, n - 1, y, h);
    }
  }

  /** Whether one of the phrase chunks below `n` shares with several gold chunks, `h` among them. */
  predicate Cleared(ps: seq<seq<nat>>, n: nat, h: int)
    requires n <= |ps|
  {
    n > 0 && (Cleared(ps, n - 1, h) || (|ps[n - 1]| > 1 && h in ps[n - 1]))
  }

  lemma {:induction false} ClearedIff(ps: seq<seq<nat>>, n: nat, h: int)
    requires n <= |ps|
    ensures Cleared(ps, n, h) <==> exists y | 0 <= y < n :: |ps[y]| > 1 && h in ps[y]
  {
    if n > 0 {
      ClearedIff(ps, n - 1, h);
    }
  }

  /** After both passes a gold chunk is still touched exactly when it is in a one-to-one pair. */
  lemma TouchedFinal(gs: seq<seq<nat>>, ps: seq<seq<nat>>, h: int)
    requires Mirrored(gs, ps) && 0 <= h < |gs|
    ensures (|gs[h]| == 1 && !Cleared(ps, |ps|, h)) <==> IsLinked(gs, ps, h)
  {
    ClearedIff(ps, |ps|, h);
    if |gs[h]| == 1 {
      var x := gs[h][0];
      forall y | 0 <= y < |ps|
        ensures h in ps[y] <==> y == x
      {
        assert y in gs[h] <==> y == x;
      }
    }
  }

  /** After both passes every phrase label has its closed form. */
  lemma LabelsFinal(gs: seq<seq<nat>>, ps: seq<seq<nat>>, kinds: seq<string>, ls: seq<string>)
    requires Linker(gs, ps, kinds) && |ls| == |ps|
    requires forall y | 0 <= y < |ps| :: ls[y] == (if |ps[y]| <= 1 then FirstPass(gs, kinds, |gs|, y) else "o")
    ensures ls == Labels(gs, ps, kinds)
  {
    forall y | 0 <= y < |ps| ensures ls[y] == Labels(gs, ps, kinds)[y] {
      LabelFinal(gs, ps, kinds, y);
    }
  }

  lemma LabelFinal(gs: seq<seq<nat>>, ps: seq<seq<nat>>, kinds: seq<string>, y: int)
    requires Linker(gs, ps, kinds) && 0 <= y < |ps|
    ensures (if |ps[y]| <= 1 then FirstPass(gs, kinds, |gs|, y) else "o") == Label(gs, ps, kinds, y)
  {
    var s := ps[y];
    if |s| == 0 {
      FirstPassNone(gs, kinds, |gs|, y);
    } else if |s| == 1 {
      forall h' | 0 <= h' < |gs| && h' != s[0]
        ensures y !in gs[h']
      {
        assert h' !in s;
      }
      FirstPassOnly(gs, kinds, |gs|, y, s[0]);
    }
  }

  // ------------------------------------------------- the count identity

  predicate Kept(l: string) {
    l != "o" && l != "np"
  }

  /** `[x for x in labels if x not in ["o", "np"]]`. */
  function KeptLabels(labels: seq<string>): (r: seq<string>)
    ensures |r| <= |labels|
    ensures forall j | 0 <= j < |r| :: Kept(r[j])
  {
    if labels == [] then []
    else
      var n := |labels| - 1;
      KeptLabels(labels[..n]) + (if Kept(labels[n]) then [labels[n]] else [])
  }

  /** The number of labels below `n` that are kept. */
  function KeptCount(labels: seq<string>, n: nat): nat
    requires n <= |labels|
  {
    if n == 0 then 0 else KeptCount(labels, n - 1) + (if Kept(labels[n - 1]) then 1 else 0)
  }

  lemma {:induction false} KeptLabelsCount(labels: seq<string>, n: nat)
    requires n <= |labels|
    ensures |KeptLabels(labels[..n])| == KeptCount(labels, n)
  {
    if n > 0 {
      KeptLabelsCount(labels, n - 1);
      assert labels[..n][..n - 1] == labels[..n - 1];
    }
  }

  /** The gold chunks below `n` in a one-to-one pair whose label is kept (`good`) or not. */
  function LinkedCount(gs: seq<seq<nat>>, ps: seq<seq<nat>>, kinds: seq<string>, n: nat, good: bool): nat
    requires Linker(gs, ps, kinds) && n <= |gs|
  {
    if n == 0 then 0
    else LinkedCount(gs, ps, kinds, n - 1, good) + (if IsLinked(gs, ps, n - 1) && Kept(kinds[n - 1]) == good then 1 else 0)
  }

  lemma {:induction false} UnlinkedCount(gs: seq<seq<nat>>, ps: seq<seq<nat>>, kinds: seq<string>, n: nat)
    requires Linker(gs, ps, kinds) && n <= |gs|
    ensures |Unlinked(gs, ps, n)| + LinkedCount(gs, ps, kinds, n, true) + LinkedCount(gs, ps, kinds, n, false) == n
  {
    if n > 0 {
      UnlinkedCount(gs, ps, kinds, n - 1);
    }
  }

  /**
   * The phrase chunks below `m` with a kept label whose partner is a gold
   * chunk below `n`.
   */
  function KeptWithin(gs: seq<seq<nat>>, ps: seq<seq<nat>>, kinds: seq<string>, m: nat, n: nat): nat
    requires Linker(gs, ps, kinds) && m <= |ps|
  {
    if m == 0 then 0
    else
      KeptWithin(gs, ps, kinds, m - 1, n) +
      (if Kept(Label(gs, ps, kinds, m - 1)) && ps[m - 1][0] < n then 1 else 0)
  }

  /** Exactly one phrase chunk below `m` has partner `g` if `gs[g] == [x]` with `x < m`, and none otherwise. */
  lemma {:induction false} KeptWithinStep(gs: seq<seq<nat>>, ps: seq<seq<nat>>, kinds: seq<string>, m: nat, g: nat)
    requires Linker(gs, ps, kinds) && m <= |ps| && g < |gs|
    ensures KeptWithin(gs, ps, kinds, m, g + 1) ==
      KeptWithin(gs, ps, kinds, m, g) +
      (if IsLinked(gs, ps, g) && Kept(kinds[g]) && gs[g][0] < m then 1 else 0)
  {
    if m > 0 {
      KeptWithinStep(gs, ps, kinds, m - 1, g);
      KeptWithinNext(gs, ps, kinds, m, g);
    }
  }

  lemma KeptWithinNext(gs: seq<seq<nat>>, ps: seq<seq<nat>>, kinds: seq<string>, m: nat, g: nat)
    requires Linker(gs, ps, kinds) && 0 < m <= |ps| && g < |gs|
    requires KeptWithin(gs, ps, kinds, m - 1, g + 1) ==
      KeptWithin(gs, ps, kinds, m - 1, g) +
      (if IsLinked(gs, ps, g) && Kept(kinds[g]) && gs[g][0] < m - 1 then 1 else 0)
    ensures KeptWithin(gs, ps, kinds, m, g + 1) ==
      KeptWithin(gs, ps, kinds, m, g) +
      (if IsLinked(gs, ps, g) && Kept(kinds[g]) && gs[g][0] < m then 1 else 0)
  {
    KeptPartner(gs, ps, kinds, m - 1, g);
  }

  /** Phrase chunk `x` keeps a label with partner `g` exactly when `g` and `x` form a one-to-one pair and `g`'s label is kept. */
  lemma KeptPartner(gs: seq<seq<nat>>, ps: seq<seq<nat>>, kinds: seq<string>, x: nat, g: nat)
    requires Linker(gs, ps, kinds) && x < |ps| && g < |gs|
    ensures (Kept(Label(gs, ps, kinds, x)) && ps[x][0] == g) <==>
      (IsLinked(gs, ps, g) && Kept(kinds[g]) && gs[g][0] == x)
  {
    if Kept(Label(gs, ps, kinds, x)) {
      var h := ps[x][0];
      assert |ps[x]| == 1 && |gs[h]| == 1 && x in gs[h];
      assert gs[h] == [x];
      if h != g {
        assert x in gs[g] <==> g in ps[x];
      }
    } else if IsLinked(gs, ps, g) && gs[g][0] == x {
      LinkedPair(gs, ps, kinds, g);
    }
  }

  lemma {:induction false} KeptWithinLinked(gs: seq<seq<nat>>, ps: seq<seq<nat>>, kinds: seq<string>, n: nat)
    requires Linker(gs, ps, kinds) && n <= |gs|
    ensures KeptWithin(gs, ps, kinds, |ps|, n) == LinkedCount(gs, ps, kinds, n, true)
  {
    if n == 0 {
      KeptWithinNone(gs, ps, kinds, |ps|);
    } else {
      KeptWithinLinked(gs, ps, kinds, n - 1);
      KeptWithinStep(gs, ps, kinds, |ps|, n - 1);
    }
  }

  lemma {:induction false} KeptWithinNone(gs: seq<seq<nat>>, ps: seq<seq<nat>>, kinds: seq<string>, m: nat)
    requires Linker(gs, ps, kinds) && m <= |ps|
    ensures KeptWithin(gs, ps, kinds, m, 0) == 0
  {
    if m > 0 {
      KeptWithinNone(gs, ps, kinds, m - 1);
    }
  }

  lemma {:induction false} KeptWithinAll(gs: seq<seq<nat>>, ps: seq<seq<nat>>, kinds: seq<string>, m: nat)
    requires Linker(gs, ps, kinds) && m <= |ps|
    ensures KeptWithin(gs, ps, kinds, m, |gs|) == KeptCount(Labels(gs, ps, kinds), m)
  {
    if m > 0 {
      KeptWithinAll(gs, ps, kinds, m - 1);
      KeptWithinLast(gs, ps, kinds, m);
    }
  }

  lemma KeptWithinLast(gs: seq<seq<nat>>, ps: seq<seq<nat>>, kinds: seq<string>, m: nat)
    requires Linker(gs, ps, kinds) && 0 < m <= |ps|
    requires KeptWithin(gs, ps, kinds, m - 1, |gs|) == KeptCount(Labels(gs, ps, kinds), m - 1)
    ensures KeptWithin(gs, ps, kinds, m, |gs|) == KeptCount(Labels(gs, ps, kinds), m)
  {
    var l := Label(gs, ps, kinds, m - 1);
    assert Labels(gs, ps, kinds)[m - 1] == l;
    if Kept(l) {
      assert ps[m - 1][0] < |gs|;
    }
  }

  /**
   * The identity `overlap` asserts, in general: the kept phrase labels plus
   * the false negatives make up every gold chunk but those in a one-to-one
   * pair whose own label is `"o"` or `"np"`.
   */
  lemma CountIdentity(gs: seq<seq<nat>>, ps: seq<seq<nat>>, kinds: seq<string>)
    requires Linker(gs, ps, kinds)
    ensures |KeptLabels(Labels(gs, ps, kinds))| + |Misses(gs, ps, kinds)| ==
      |gs| - LinkedCount(gs, ps, kinds, |gs|, false)
  {
    var labels := Labels(gs, ps, kinds);
    KeptLabelsCount(labels, |labels|);
    assert labels[..|labels|] == labels;
    KeptWithinAll(gs, ps, kinds, |ps|);
    KeptWithinLinked(gs, ps, kinds, |gs|);
    UnlinkedCount(gs, ps, kinds, |gs|);
  }

  /** No gold chunk in a one-to-one pair carries the label `"o"` or `"np"`. */
  predicate LinkedKept(gs: seq<seq<nat>>, ps: seq<seq<nat>>, kinds: seq<string>)
    requires Linker(gs, ps, kinds)
  {
    forall g | 0 <= g < |gs| :: IsLinked(gs, ps, g) ==> Kept(kinds[g])
  }

  lemma {:induction false} NoneLinkedBad(gs: seq<seq<nat>>, ps: seq<seq<nat>>, kinds: seq<string>, n: nat)
    requires Linker(gs, ps, kinds) && n <= |gs|
    ensures LinkedCount(gs, ps, kinds, n, false) == 0 <==>
      forall g | 0 <= g < n :: IsLinked(gs, ps, g) ==> Kept(kinds[g])
  {
    if n > 0 {
      NoneLinkedBad(gs, ps, kinds, n - 1);
    }
  }

  /** The count check of `overlap` passes exactly when no linked gold chunk is labelled `"o"` or `"np"`. */
  lemma CountHolds(gs: seq<seq<nat>>, ps: seq<seq<nat>>, kinds: seq<string>)
    requires Linker(gs, ps, kinds)
    ensures |KeptLabels(Labels(gs, ps, kinds))| + |Misses(gs, ps, kinds)| == |gs| <==> LinkedKept(gs, ps, kinds)
  {
    CountIdentity(gs, ps, kinds);
    NoneLinkedBad(gs, ps, kinds, |gs|);
  }

  // ------------------------------------------------------------ overlap

  /** The labels `overlap` returns for the phrase chunks. */
  function PhraseLabels(gold: seq<Span>, phrase: seq<Span>): (r: seq<string>)
    ensures |r| == |phrase|
  {
    TablesMirrored(gold, phrase);
    Labels(SharedTable(gold, phrase), SharedTable(phrase, gold), Sequence.Labels(gold))
  }

  /** The false-negative records `overlap` returns. */
  function FalseNegatives(gold: seq<Span>, phrase: seq<Span>): seq<(string, string)> {
    TablesMirrored(gold, phrase);
    Misses(SharedTable(gold, phrase), SharedTable(phrase, gold), Sequence.Labels(gold))
  }

  predicate OverlapOk(gold: seq<Span>, phrase: seq<Span>) {
    TablesMirrored(gold, phrase);
    LinkedKept(SharedTable(gold, phrase), SharedTable(phrase, gold), Sequence.Labels(gold))
  }

  /** Sets `a[y] := v` for each index `y` in `idx`. */
  method Fill<T>(a: array<T>, idx: seq<nat>, v: T)
    requires forall j | 0 <= j < |idx| :: idx[j] < a.Length
    modifies a
    ensures forall y | 0 <= y < a.Length :: a[y] == if y in idx then v else old(a[y])
  {
    for j := 0 to |idx|
      invariant forall y | 0 <= y < a.Length :: a[y] == if y in idx[..j] then v else old(a[y])
    {
      a[idx[j]] := v;
      assert idx[..j + 1] == idx[..j] + [idx[j]];
    }
    assert idx[..|idx|] == idx;
  }

  /**
   * `overlap`: the first pass over the gold chunks labels the phrase chunks
   * each shares with, the second over the phrase chunks turns every phrase
   * chunk sharing with several gold chunks into `"o"` and unmarks those gold
   * chunks; the still-unmarked gold chunks are the false negatives. The
   * final count check fails with an assertion error exactly when a gold
   * chunk in a one-to-one pair is itself labelled `"o"` or `"np"`.
   */
  method Overlap(gold: seq<Span>, phrase: seq<Span>) returns (r: Result<(seq<(string, string)>, seq<string>)>)
    ensures r.Ok? <==> OverlapOk(gold, phrase)
    ensures r.Err? ==> r.error == AssertionError
    ensures r.Ok? ==> r.value == (FalseNegatives(gold, phrase), PhraseLabels(gold, phrase))
  {
    ghost var gs, ps, kinds := SharedTable(gold, phrase), SharedTable(phrase, gold), Sequence.Labels(gold);
    TablesMirrored(gold, phrase);
    var touched := new bool[|gold|](_ => false);
    var labels := new string[|phrase|](_ => "np");
    GoldPass(gs, gold, phrase, touched, labels);
    PhrasePass(gs, ps, gold, phrase, touched, labels);
    var results := Untouched(gs, ps, gold, touched);
    var final := labels[..];
    assert final == PhraseLabels(gold, phrase);
    assert results == FalseNegatives(gold, phrase);
    var totalLen := |KeptLabels(final)| + |results|;
    CountHolds(gs, ps, kinds);
    assert OverlapOk(gold, phrase) == LinkedKept(gs, ps, kinds);
    if totalLen != |gold| {
      return Err(AssertionError);
    }
    r := Ok((results, final));
  }

  /** The first pass of `overlap`, over the gold chunks. */
  method GoldPass(ghost gs: seq<seq<nat>>, gold: seq<Span>, phrase: seq<Span>, touched: array<bool>, labels: array<string>)
    requires TableOf(gs, gold, phrase)
    requires touched.Length == |gold| && labels.Length == |phrase|
    requires forall y | 0 <= y < |phrase| :: labels[y] == "np"
    modifies touched, labels
    ensures forall h | 0 <= h < |gold| :: touched[h] == (|gs[h]| == 1)
    ensures forall y | 0 <= y < |phrase| :: labels[y] == FirstPass(gs, Sequence.Labels(gold), |gold|, y)
  {
    ghost var kinds := Sequence.Labels(gold);
    var pb := Bounds(phrase);
    for g := 0 to |gold|
      invariant forall h | 0 <= h < g :: touched[h] == (|gs[h]| == 1)
      invariant forall y | 0 <= y < |phrase| :: labels[y] == FirstPass(gs, kinds, g, y)
    {
      var shr := CalculateShared((gold[g].begin, gold[g].end), pb);
      assert shr == gs[g];
      GoldStep(gs, kinds, g, shr, gold[g].kind, labels);
      touched[g] := |shr| == 1;
    }
  }

  /** One gold chunk of the first pass: the phrase chunks it shares with take its label, or `"o"` if several. */
  method GoldStep(ghost gs: seq<seq<nat>>, ghost kinds: seq<string>, g: nat, shr: seq<nat>, kind: string,
                  labels: array<string>)
    requires g < |gs| == |kinds| && shr == gs[g] && kind == kinds[g]
    requires forall j | 0 <= j < |shr| :: shr[j] < labels.Length
    requires forall y | 0 <= y < labels.Length :: labels[y] == FirstPass(gs, kinds, g, y)
    modifies labels
    ensures forall y | 0 <= y < labels.Length :: labels[y] == FirstPass(gs, kinds, g + 1, y)
  {
    if |shr| == 1 {
      Fill(labels, shr, kind);
    } else if |shr| > 1 {
      Fill(labels, shr, "o");
    }
  }

  /** The second pass of `overlap`, over the phrase chunks. */
  method PhrasePass(ghost gs: seq<seq<nat>>, ghost ps: seq<seq<nat>>, gold: seq<Span>, phrase: seq<Span>,
                    touched: array<bool>, labels: array<string>)
    requires Linker(gs, ps, Sequence.Labels(gold)) && TableOf(ps, phrase, gold)
    requires touched.Length == |gold| && labels.Length == |phrase|
    requires forall h | 0 <= h < |gold| :: touched[h] == (|gs[h]| == 1)
    requires forall y | 0 <= y < |phrase| :: labels[y] == FirstPass(gs, Sequence.Labels(gold), |gold|, y)
    modifies touched, labels
    ensures forall h | 0 <= h < |gold| :: touched[h] == IsLinked(gs, ps, h)
    ensures labels[..] == Labels(gs, ps, Sequence.Labels(gold))
  {
    ghost var kinds := Sequence.Labels(gold);
    var gb := Bounds(gold);
    for x := 0 to |phrase|
      invariant forall y | 0 <= y < x :: labels[y] == (if |ps[y]| <= 1 then old(labels[y]) else "o")
      invariant forall y | x <= y < |phrase| :: labels[y] == old(labels[y])
      invariant forall h | 0 <= h < |gold| :: touched[h] == (|gs[h]| == 1 && !Cleared(ps, x, h))
    {
      var shr := CalculateShared((phrase[x].begin, phrase[x].end), gb);
      assert shr == ps[x];
      PhraseStep(gs, ps, x, shr, touched, labels);
      assert forall h | 0 <= h < |gold| :: touched[h] == (|gs[h]| == 1 && !Cleared(ps, x + 1, h));
      assert forall y | x < y < |phrase| :: labels[y] == old(labels[y]);
      forall y | 0 <= y <= x ensures labels[y] == (if |ps[y]| <= 1 then old(labels[y]) else "o") {
        if y == x {
          assert |shr| == |ps[x]|;
        }
      }
    }
    forall h | 0 <= h < |gold| ensures touched[h] == IsLinked(gs, ps, h) {
      TouchedFinal(gs, ps, h);
    }
    assert forall y | 0 <= y < |phrase| :: labels[y] == (if |ps[y]| <= 1 then FirstPass(gs, kinds, |gs|, y) else "o");
    LabelsFinal(gs, ps, kinds, labels[..]);
  }

  /**
   * One phrase chunk of the second pass: if it shares with several gold
   * chunks it becomes `"o"` and those gold chunks are unmarked.
   */
  method PhraseStep(ghost gs: seq<seq<nat>>, ghost ps: seq<seq<nat>>, x: nat, shr: seq<nat>,
                    touched: array<bool>, labels: array<string>)
    requires Mirrored(gs, ps) && x < |ps| && shr == ps[x]
    requires touched.Length == |gs| && labels.Length == |ps|
    requires forall h | 0 <= h < |gs| :: touched[h] == (|gs[h]| == 1 && !Cleared(ps, x, h))
    modifies touched, labels
    ensures forall h | 0 <= h < |gs| :: touched[h] == (|gs[h]| == 1 && !Cleared(ps, x + 1, h))
    ensures labels[x] == if |ps[x]| <= 1 then old(labels[x]) else "o"
    ensures forall y | 0 <= y < |ps| && y != x :: labels[y] == old(labels[y])
  {
    labels[x] := if |shr| <= 1 then labels[x] else "o";
    if |shr| > 1 {
      Fill(touched, shr, false);
    }
  }

  /** The false-negative records: the gold chunks left untouched, in gold order. */
  method Untouched(ghost gs: seq<seq<nat>>, ghost ps: seq<seq<nat>>, gold: seq<Span>, touched: array<bool>)
    returns (results: seq<(string, string)>)
    requires Linker(gs, ps, Sequence.Labels(gold))
    requires touched.Length == |gold|
    requires forall h | 0 <= h < |gold| :: touched[h] == IsLinked(gs, ps, h)
    ensures results == Records(Sequence.Labels(gold), Unlinked(gs, ps, |gold|))
  {
    ghost var kinds := Sequence.Labels(gold);
    results := [];
    for g := 0 to |gold|
      invariant results == Records(kinds, Unlinked(gs, ps, g))
    {
      UnlinkedStep(gs, ps, kinds, g);
      if !touched[g] {
        results := results + [(gold[g].kind, "np")];
      }
    }
  }

  lemma UnlinkedStep(gs: seq<seq<nat>>, ps: seq<seq<nat>>, kinds: seq<string>, g: nat)
    requires Linker(gs, ps, kinds) && g < |gs|
    ensures Records(kinds, Unlinked(gs, ps, g + 1)) ==
      Records(kinds, Unlinked(gs, ps, g)) + (if IsLinked(gs, ps, g) then [] else [(kinds[g], "np")])
  {
    var u := Unlinked(gs, ps, g);
    if !IsLinked(gs, ps, g) {
      assert Unlinked(gs, ps, g + 1) == u + [g];
      MissSnoc(kinds, u, g);
    } else {
      assert Unlinked(gs, ps, g + 1) == u;
    }
  }

  lemma MissSnoc(kinds: seq<string>, u: seq<nat>, g: nat)
    requires g < |kinds| && forall j | 0 <= j < |u| :: u[j] < |kinds|
    ensures Records(kinds, u + [g]) == Records(kinds, u) + [(kinds[g], "np")]
  {
    var r, r' := Records(kinds, u), Records(kinds, u + [g]);
    assert forall j | 0 <= j < |u| :: r'[j] == r[j];
  }

  // ------------------------------------------------- link_chunks_to_gold

  /** The phrase labels of the first `n` document pairs, concatenated. */
  function AllLabels(golds: seq<seq<Span>>, phrases: seq<seq<Span>>, n: nat): (r: seq<string>)
    requires n <= |golds| && n <= |phrases|
    ensures |r| == TotalSpans(phrases[..n])
  {
    if n == 0 then []
    else
      assert phrases[..n][..n - 1] == phrases[..n - 1];
      AllLabels(golds, phrases, n - 1) + PhraseLabels(golds[n - 1], phrases[n - 1])
  }

  /** The false-negative records of the first `n` document pairs, concatenated. */
  function AllMisses(golds: seq<seq<Span>>, phrases: seq<seq<Span>>, n: nat): seq<(string, string)>
    requires n <= |golds| && n <= |phrases|
  {
    if n == 0 then []
    else AllMisses(golds, phrases, n - 1) + FalseNegatives(golds[n - 1], phrases[n - 1])
  }

  /** Every one of the first `n` document pairs passes the count check of `overlap`. */
  predicate AllOk(golds: seq<seq<Span>>, phrases: seq<seq<Span>>, n: nat)
    requires n <= |golds| && n <= |phrases|
  {
    n == 0 || (AllOk(golds, phrases, n - 1) && OverlapOk(golds[n - 1], phrases[n - 1]))
  }

  lemma {:induction false} AllOkIff(golds: seq<seq<Span>>, phrases: seq<seq<Span>>, n: nat)
    requires n <= |golds| && n <= |phrases|
    ensures AllOk(golds, phrases, n) <==> forall d | 0 <= d < n :: OverlapOk(golds[d], phrases[d])
  {
    if n > 0 {
      AllOkIff(golds, phrases, n - 1);
    }
  }

  /**
   * `link_chunks_to_gold`: `overlap` per document pair, pairing by position
   * and stopping at the shorter list, with the labels and records extended
   * in document order.
   */
  method LinkChunksToGold(phrases: seq<seq<Span>>, golds: seq<seq<Span>>)
    returns (r: Result<(seq<string>, seq<(string, string)>)>)
    ensures r.Ok? <==> AllOk(golds, phrases, Min(|golds|, |phrases|))
    ensures r.Err? ==> r.error == AssertionError
    ensures r.Ok? ==>
      var n := Min(|golds|, |phrases|);
      r.value == (AllLabels(golds, phrases, n), AllMisses(golds, phrases, n)) &&
      |r.value.0| == TotalSpans(phrases[..n])
  {
    var n := Min(|golds|, |phrases|);
    var results: seq<(string, string)> := [];
    var chunkLabels: seq<string> := [];
    for d := 0 to n
      invariant AllOk(golds, phrases, d)
      invariant chunkLabels == AllLabels(golds, phrases, d)
      invariant results == AllMisses(golds, phrases, d)
    {
      var res := Overlap(golds[d], phrases[d]);
      if res.Err? {
        AllOkIff(golds, phrases, n);
        return Err(res.error);
      }
      results := results + res.value.0;
      chunkLabels := chunkLabels + res.value.1;
    }
    r := Ok((chunkLabels, results));
  }

  // ---------------------------------------------------------- label_chunks

  /** `[i for i, v in enumerate(labels) if v != "o"]`: every position not labelled `"o"`, in order. */
  function Allowed(labels: seq<string>): (r: seq<nat>)
    ensures forall j | 0 <= j < |r| :: r[j] < |labels| && labels[r[j]] != "o"
    ensures forall i | 0 <= i < |labels| && labels[i] != "o" :: i in r
    ensures forall j, k | 0 <= j < k < |r| :: r[j] < r[k]
  {
    if labels == [] then []
    else
      var n := |labels| - 1;
      Allowed(labels[..n]) + (if labels[n] != "o" then [n] else [])
  }
}
