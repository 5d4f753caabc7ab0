/**
 * Chunk-level evaluation of predicted BIO sequences against gold ones
 * (conch/evaluation/sequence.py): exact matching of span triples, inexact
 * matching by label overlap, corpus accumulation with its sanity identities,
 * per-document significance-test triples, and precision/recall/F1.
 *
 * A Python set of spans is modelled as a sequence without repeats
 * (`NoDup`); the decoder's output has that form.
 */
module Sequence {
  import opened Results
  import opened PyText
  import opened Counters
  import opened Utils

  // ------------------------------------------------------- span sequences

  /** `[x[-1] for x in xs]`: the label of every span. */
  function Labels(xs: seq<Span>): (ls: seq<string>)
    ensures |ls| == |xs| && forall i | 0 <= i < |xs| :: ls[i] == xs[i].kind
  {
    seq(|xs|, i requires 0 <= i < |xs| => xs[i].kind)
  }

  /** `a.intersection(b)`, listed in the order of `a`. */
  function Inter(a: seq<Span>, b: seq<Span>): (r: seq<Span>)
    ensures forall x :: x in r <==> x in a && x in b
  {
    if a == [] then []
    else
      assert a == a[..|a| - 1] + [a[|a| - 1]];
      Inter(a[..|a| - 1], b) + (if a[|a| - 1] in b then [a[|a| - 1]] else [])
  }

  /** `a - b`, listed in the order of `a`. */
  function Minus(a: seq<Span>, b: seq<Span>): (r: seq<Span>)
    ensures forall x :: x in r <==> x in a && x !in b
  {
    if a == [] then []
    else
      assert a == a[..|a| - 1] + [a[|a| - 1]];
      Minus(a[..|a| - 1], b) + (if a[|a| - 1] !in b then [a[|a| - 1]] else [])
  }

  /** How many spans of `xs` carry label `k`. */
  function CountKind(xs: seq<Span>, k: string): nat {
    if xs == [] then 0 else CountKind(xs[..|xs| - 1], k) + (if xs[|xs| - 1].kind == k then 1 else 0)
  }

  lemma CountKindSnoc(xs: seq<Span>, x: Span, k: string)
    ensures CountKind(xs + [x], k) == CountKind(xs, k) + (if x.kind == k then 1 else 0)
  {
    assert (xs + [x])[..|xs|] == xs;
  }

  /** Counting the labels of `xs` gives, for each label, the number of spans with it. */
  lemma {:induction false} LabelsCount(xs: seq<Span>, k: string)
    ensures multiset(Labels(xs))[k] == CountKind(xs, k)
  {
    if xs != [] {
      var pre := xs[..|xs| - 1];
      LabelsCount(pre, k);
      assert Labels(xs) == Labels(pre) + [xs[|xs| - 1].kind];
    }
  }

  lemma InterSnoc(a: seq<Span>, b: seq<Span>)
    requires a != []
    ensures Inter(a, b) == Inter(a[..|a| - 1], b) + (if a[|a| - 1] in b then [a[|a| - 1]] else [])
    ensures Minus(a, b) == Minus(a[..|a| - 1], b) + (if a[|a| - 1] !in b then [a[|a| - 1]] else [])
  {
  }

  /** Splitting `a` by membership in `b` splits its size and its per-label counts. */
  lemma {:induction false} Partition(a: seq<Span>, b: seq<Span>, k: string)
    ensures |a| == |Inter(a, b)| + |Minus(a, b)|
    ensures CountKind(a, k) == CountKind(Inter(a, b), k) + CountKind(Minus(a, b), k)
  {
    if a != [] {
      var pre, x := a[..|a| - 1], a[|a| - 1];
      Partition(pre, b, k);
      InterSnoc(a, b);
      assert CountKind(a, k) == CountKind(pre, k) + (if x.kind == k then 1 else 0);
      if x in b {
        CountKindSnoc(Inter(pre, b), x, k);
        assert Minus(a, b) == Minus(pre, b);
      } else {
        CountKindSnoc(Minus(pre, b), x, k);
        assert Inter(a, b) == Inter(pre, b);
      }
    }
  }

  lemma NoDupSnoc(xs: seq<Span>, x: Span)
    requires NoDup(xs) && x !in xs
    ensures NoDup(xs + [x])
  {
  }

  lemma {:induction false} InterNoDup(a: seq<Span>, b: seq<Span>)
    requires NoDup(a)
    ensures NoDup(Inter(a, b))
  {
    if a != [] {
      var pre := a[..|a| - 1];
      InterNoDup(pre, b);
      InterSnoc(a, b);
      assert a[|a| - 1] !in pre;
    }
  }

  function KindSet(xs: seq<Span>, k: string): set<Span> {
    set x | x in xs && x.kind == k
  }

  function Elements(xs: seq<Span>): set<Span> {
    set x | x in xs
  }

  lemma NoDupSplit(xs: seq<Span>)
    requires xs != [] && NoDup(xs)
    ensures NoDup(xs[..|xs| - 1]) && xs[|xs| - 1] !in xs[..|xs| - 1]
    ensures xs == xs[..|xs| - 1] + [xs[|xs| - 1]]
  {
  }

  /** Without repeats, a span sequence has as many elements as its set. */
  lemma {:induction false} NoDupCard(xs: seq<Span>)
    requires NoDup(xs)
    ensures |xs| == |Elements(xs)|
  {
    if xs == [] {
      assert Elements(xs) == {};
    } else {
      var pre, y := xs[..|xs| - 1], xs[|xs| - 1];
      NoDupSplit(xs);
      NoDupCard(pre);
      assert Elements(xs) == Elements(pre) + {y};
    }
  }

  /** Without repeats, a span sequence counts each label as its set of spans does. */
  lemma {:induction false} NoDupCounts(xs: seq<Span>, k: string)
    requires NoDup(xs)
    ensures CountKind(xs, k) == |KindSet(xs, k)|
  {
    if xs == [] {
      assert KindSet(xs, k) == {};
    } else {
      var pre, y := xs[..|xs| - 1], xs[|xs| - 1];
      NoDupSplit(xs);
      NoDupCounts(pre, k);
      if y.kind == k {
        assert KindSet(xs, k) == KindSet(pre, k) + {y};
      } else {
        assert KindSet(xs, k) == KindSet(pre, k);
      }
    }
  }

  /** The intersection taken from either side has the same size and per-label counts. */
  lemma InterSym(g: seq<Span>, p: seq<Span>, k: string)
    requires NoDup(g) && NoDup(p)
    ensures CountKind(Inter(g, p), k) == CountKind(Inter(p, g), k)
    ensures |Inter(g, p)| == |Inter(p, g)|
  {
    InterNoDup(g, p);
    InterNoDup(p, g);
    NoDupCounts(Inter(g, p), k);
    NoDupCounts(Inter(p, g), k);
    NoDupCard(Inter(g, p));
    NoDupCard(Inter(p, g));
    assert KindSet(Inter(g, p), k) == KindSet(Inter(p, g), k);
    assert Elements(Inter(g, p)) == Elements(Inter(p, g));
  }

  // -------------------------------------------------------- exact matching

  /**
   * `eval_triples_exact`: the labels of gold ∩ pred (true positives),
   * pred − gold (false positives) and gold − pred (false negatives), counted.
   */
  function EvalTriplesExact(g: seq<Span>, p: seq<Span>): (r: (Counter, Counter, Counter))
    requires NoDup(g) && NoDup(p)
    ensures Valid(r.0) && Valid(r.1) && Valid(r.2)
    ensures forall k :: Get(r.0, k) == CountKind(Inter(g, p), k)
    ensures forall k :: Get(r.1, k) == CountKind(Minus(p, g), k)
    ensures forall k :: Get(r.2, k) == CountKind(Minus(g, p), k)
    ensures forall k :: Get(r.0, k) + Get(r.1, k) == CountKind(p, k)
    ensures forall k :: Get(r.0, k) + Get(r.2, k) == CountKind(g, k)
    ensures Sum(r.0) == |Inter(g, p)|
    ensures Sum(r.0) + Sum(r.1) == |p| && Sum(r.0) + Sum(r.2) == |g|
  {
    ExactFacts(g, p);
    (Tally(Labels(Inter(g, p))), Tally(Labels(Minus(p, g))), Tally(Labels(Minus(g, p))))
  }

  lemma ExactFacts(g: seq<Span>, p: seq<Span>)
    requires NoDup(g) && NoDup(p)
    ensures var tp, fp, fn := Tally(Labels(Inter(g, p))), Tally(Labels(Minus(p, g))), Tally(Labels(Minus(g, p)));
      Valid(tp) && Valid(fp) && Valid(fn) &&
      (forall k :: Get(tp, k) == CountKind(Inter(g, p), k)) &&
      (forall k :: Get(fp, k) == CountKind(Minus(p, g), k)) &&
      (forall k :: Get(fn, k) == CountKind(Minus(g, p), k)) &&
      (forall k :: Get(tp, k) + Get(fp, k) == CountKind(p, k)) &&
      (forall k :: Get(tp, k) + Get(fn, k) == CountKind(g, k)) &&
      Sum(tp) == |Inter(g, p)| &&
      Sum(tp) + Sum(fp) == |p| && Sum(tp) + Sum(fn) == |g|
  {
    TallyFacts(Labels(Inter(g, p)));
    TallyFacts(Labels(Minus(p, g)));
    TallyFacts(Labels(Minus(g, p)));
    forall k ensures Get(Tally(Labels(Inter(g, p))), k) + Get(Tally(Labels(Minus(p, g))), k) == CountKind(p, k)
      ensures Get(Tally(Labels(Inter(g, p))), k) + Get(Tally(Labels(Minus(g, p))), k) == CountKind(g, k)
    {
      LabelsCount(Inter(g, p), k);
      LabelsCount(Minus(p, g), k);
      LabelsCount(Minus(g, p), k);
      Partition(p, g, k);
      Partition(g, p, k);
      InterSym(g, p, k);
    }
    forall k ensures Get(Tally(Labels(Inter(g, p))), k) == CountKind(Inter(g, p), k)
      ensures Get(Tally(Labels(Minus(p, g))), k) == CountKind(Minus(p, g), k)
      ensures Get(Tally(Labels(Minus(g, p))), k) == CountKind(Minus(g, p), k)
    {
      LabelsCount(Inter(g, p), k);
      LabelsCount(Minus(p, g), k);
      LabelsCount(Minus(g, p), k);
    }
    Partition(p, g, "");
    Partition(g, p, "");
    InterSym(g, p, "");
  }

  // ------------------------------------------------------ inexact matching

  /** `set([x.split("-")[-1] for x in ts if x != "O"])`. */
  function HitLabels(ts: seq<string>): set<string> {
    set t | t in ts && t != "O" :: Last(t, '-')
  }

  /** A span is credited when the other side's tags over its range carry its label. */
  predicate Credited(sp: Span, bio: seq<string>) {
    sp.kind in HitLabels(Slice(bio, sp.begin, sp.end))
  }

  /** Credit means: some non-`O` tag in `[begin, end)` ends in the span's label. */
  lemma CreditedIff(sp: Span, bio: seq<string>)
    ensures Credited(sp, bio) <==>
      exists i :: sp.begin <= i < sp.end && i < |bio| && bio[i] != "O" && Last(bio[i], '-') == sp.kind
  {
    var a, b := Clamp(sp.begin, |bio|), Clamp(sp.end, |bio|);
    if Credited(sp, bio) {
      var t :| t in Slice(bio, sp.begin, sp.end) && t != "O" && Last(t, '-') == sp.kind;
      var j :| 0 <= j < |bio[a..b]| && bio[a..b][j] == t;
      assert bio[a + j] == t;
    }
    if i :| sp.begin <= i < sp.end && i < |bio| && bio[i] != "O" && Last(bio[i], '-') == sp.kind {
      assert bio[a..b][i - a] == bio[i];
      assert bio[i] in Slice(bio, sp.begin, sp.end);
    }
  }

  /** The labels of the credited spans of `xs`, in order. */
  function CreditedLabels(xs: seq<Span>, bio: seq<string>): seq<string> {
    if xs == [] then []
    else
      var x := xs[|xs| - 1];
      CreditedLabels(xs[..|xs| - 1], bio) + (if Credited(x, bio) then [x.kind] else [])
  }

  /** How many spans of `xs` with label `k` are credited against `bio`. */
  function CreditedCount(xs: seq<Span>, bio: seq<string>, k: string): nat {
    if xs == [] then 0
    else
      var x := xs[|xs| - 1];
      CreditedCount(xs[..|xs| - 1], bio, k) + (if Credited(x, bio) && x.kind == k then 1 else 0)
  }

  lemma {:induction false} CreditedCounts(xs: seq<Span>, bio: seq<string>, k: string)
    ensures multiset(CreditedLabels(xs, bio))[k] == CreditedCount(xs, bio, k)
    ensures CreditedCount(xs, bio, k) <= CountKind(xs, k)
  {
    if xs != [] {
      CreditedCounts(xs[..|xs| - 1], bio, k);
    }
  }

  /** The counters `eval_inexact` computes from its two credited-label tallies. */
  function InexactTp(g: seq<Span>, p: seq<Span>, gb: seq<string>, pb: seq<string>): Counter {
    MinWith(Tally(CreditedLabels(g, pb)), Tally(CreditedLabels(p, gb)))
  }

  function InexactFn(g: seq<Span>, p: seq<Span>, gb: seq<string>, pb: seq<string>): Counter {
    Subtract(Tally(Labels(g)), InexactTp(g, p, gb, pb))
  }

  function InexactFp(g: seq<Span>, p: seq<Span>, gb: seq<string>, pb: seq<string>): Counter {
    Subtract(Tally(Labels(p)), InexactTp(g, p, gb, pb))
  }

  lemma InexactValid(g: seq<Span>, p: seq<Span>, gb: seq<string>, pb: seq<string>)
    ensures Valid(InexactTp(g, p, gb, pb)) && Valid(InexactFn(g, p, gb, pb)) && Valid(InexactFp(g, p, gb, pb))
    ensures Keys(InexactTp(g, p, gb, pb)) == Keys(Tally(CreditedLabels(g, pb)))
    ensures Keys(InexactFn(g, p, gb, pb)) == Keys(Tally(Labels(g)))
    ensures Keys(InexactFp(g, p, gb, pb)) == Keys(Tally(Labels(p)))
  {
    TallyFacts(CreditedLabels(g, pb));
    TallyFacts(Labels(g));
    TallyFacts(Labels(p));
    MinWithFacts(Tally(CreditedLabels(g, pb)), Tally(CreditedLabels(p, gb)));
    SubtractFacts(Tally(Labels(g)), InexactTp(g, p, gb, pb));
    SubtractFacts(Tally(Labels(p)), InexactTp(g, p, gb, pb));
  }

  /** Label by label, the true positives: the smaller credited count, where the gold side has one. */
  lemma InexactTpKey(g: seq<Span>, p: seq<Span>, gb: seq<string>, pb: seq<string>, k: string)
    ensures k in Keys(InexactTp(g, p, gb, pb)) <==> CreditedCount(g, pb, k) > 0
    ensures Get(InexactTp(g, p, gb, pb), k) == (if CreditedCount(g, pb, k) == 0 then 0
                                               else Min(CreditedCount(p, gb, k), CreditedCount(g, pb, k)))
  {
    TallyFacts(CreditedLabels(p, gb));
    TallyFacts(CreditedLabels(g, pb));
    MinWithFacts(Tally(CreditedLabels(g, pb)), Tally(CreditedLabels(p, gb)));
    CreditedCounts(p, gb, k);
    CreditedCounts(g, pb, k);
    assert k in CreditedLabels(g, pb) <==> multiset(CreditedLabels(g, pb))[k] > 0;
  }

  /** Label by label: the true positives, and what remains for false negatives and positives. */
  lemma InexactKey(g: seq<Span>, p: seq<Span>, gb: seq<string>, pb: seq<string>, k: string)
    ensures var tp, fn, fp := InexactTp(g, p, gb, pb), InexactFn(g, p, gb, pb), InexactFp(g, p, gb, pb);
      (k in Keys(tp) <==> CreditedCount(g, pb, k) > 0) &&
      (k in Keys(fn) <==> CountKind(g, k) > 0) &&
      (k in Keys(fp) <==> CountKind(p, k) > 0) &&
      Get(tp, k) == (if CreditedCount(g, pb, k) == 0 then 0
                     else Min(CreditedCount(p, gb, k), CreditedCount(g, pb, k))) &&
      Get(tp, k) + Get(fp, k) == CountKind(p, k) && Get(tp, k) + Get(fn, k) == CountKind(g, k) &&
      0 <= Get(tp, k) && 0 <= Get(fp, k) && 0 <= Get(fn, k)
  {
    var tp := InexactTp(g, p, gb, pb);
    InexactTpKey(g, p, gb, pb, k);
    CreditedCounts(p, gb, k);
    CreditedCounts(g, pb, k);
    InexactValid(g, p, gb, pb);
    TallyFacts(Labels(g));
    TallyFacts(Labels(p));
    SubtractFacts(Tally(Labels(g)), tp);
    SubtractFacts(Tally(Labels(p)), tp);
    LabelsCount(g, k);
    LabelsCount(p, k);
    assert k in Labels(g) <==> multiset(Labels(g))[k] > 0;
    assert k in Labels(p) <==> multiset(Labels(p))[k] > 0;
  }

  /** The totals: true plus false positives are the predicted spans, true positives plus false negatives the gold ones. */
  lemma InexactSums(g: seq<Span>, p: seq<Span>, gb: seq<string>, pb: seq<string>)
    ensures var tp, fn, fp := InexactTp(g, p, gb, pb), InexactFn(g, p, gb, pb), InexactFp(g, p, gb, pb);
      Sum(tp) + Sum(fp) == |p| && Sum(tp) + Sum(fn) == |g|
  {
    var tp := InexactTp(g, p, gb, pb);
    var gc, pc := Tally(Labels(g)), Tally(Labels(p));
    InexactValid(g, p, gb, pb);
    TallyFacts(Labels(g));
    TallyFacts(Labels(p));
    SubtractFacts(gc, tp);
    SubtractFacts(pc, tp);
    KeySeqKeys(gc);
    KeySeqKeys(pc);
    forall i | 0 <= i < |tp| ensures tp[i].1 != 0 ==> tp[i].0 in KeySeq(gc) && tp[i].0 in KeySeq(pc) {
      GetAt(tp, i);
      InexactKey(g, p, gb, pb, tp[i].0);
    }
    SumByKeys(tp, KeySeq(gc));
    SumByKeys(tp, KeySeq(pc));
  }

  function Min(a: int, b: int): int {
    if a < b then a else b
  }

  /**
   * `eval_inexact`: a span is a hit on its own side when the other side's
   * tags over its range carry its label; per label, the true positives are
   * the smaller of the two hit counts (for labels with a gold-side hit), and
   * false negatives and false positives are what remains of the gold and
   * predicted label counts.
   */
  method EvalInexact(g: seq<Span>, p: seq<Span>, gb: seq<string>, pb: seq<string>)
    returns (tp: Counter, fp: Counter, fn: Counter)
    ensures tp == InexactTp(g, p, gb, pb) && fp == InexactFp(g, p, gb, pb) && fn == InexactFn(g, p, gb, pb)
    ensures Valid(tp) && Valid(fp) && Valid(fn)
    ensures forall k :: k in Keys(tp) <==> CreditedCount(g, pb, k) > 0
    ensures forall k :: k in Keys(fn) <==> CountKind(g, k) > 0
    ensures forall k :: k in Keys(fp) <==> CountKind(p, k) > 0
    ensures forall k :: Get(tp, k) == if CreditedCount(g, pb, k) == 0 then 0
                                      else Min(CreditedCount(p, gb, k), CreditedCount(g, pb, k))
    ensures forall k :: Get(tp, k) + Get(fp, k) == CountKind(p, k) && Get(tp, k) + Get(fn, k) == CountKind(g, k)
    ensures forall k :: 0 <= Get(tp, k) && 0 <= Get(fp, k) && 0 <= Get(fn, k)
    ensures Sum(tp) + Sum(fp) == |p| && Sum(tp) + Sum(fn) == |g|
  {
    var tpP: Counter := [];
    for i := 0 to |p|
      invariant tpP == Tally(CreditedLabels(p[..i], gb))
    {
      var sp := p[i];
      assert p[..i + 1][..i] == p[..i] && p[..i + 1][i] == sp;
      if sp.kind in HitLabels(Slice(gb, sp.begin, sp.end)) {
        assert CreditedLabels(p[..i + 1], gb) == CreditedLabels(p[..i], gb) + [sp.kind];
        TallySnoc(CreditedLabels(p[..i], gb), sp.kind);
        tpP := Inc(tpP, sp.kind, 1);
      } else {
        assert CreditedLabels(p[..i + 1], gb) == CreditedLabels(p[..i], gb);
      }
    }
    var tpG: Counter := [];
    for i := 0 to |g|
      invariant tpG == Tally(CreditedLabels(g[..i], pb))
    {
      var sp := g[i];
      assert g[..i + 1][..i] == g[..i] && g[..i + 1][i] == sp;
      if sp.kind in HitLabels(Slice(pb, sp.begin, sp.end)) {
        assert CreditedLabels(g[..i + 1], pb) == CreditedLabels(g[..i], pb) + [sp.kind];
        TallySnoc(CreditedLabels(g[..i], pb), sp.kind);
        tpG := Inc(tpG, sp.kind, 1);
      } else {
        assert CreditedLabels(g[..i + 1], pb) == CreditedLabels(g[..i], pb);
      }
    }
    assert p[..|p|] == p && g[..|g|] == g;
    tp := MinWith(tpG, tpP);
    fn := Subtract(Tally(Labels(g)), tp);
    fp := Subtract(Tally(Labels(p)), tp);
    InexactValid(g, p, gb, pb);
    InexactSums(g, p, gb, pb);
    forall k
      ensures k in Keys(tp) <==> CreditedCount(g, pb, k) > 0
      ensures k in Keys(fn) <==> CountKind(g, k) > 0
      ensures k in Keys(fp) <==> CountKind(p, k) > 0
      ensures Get(tp, k) == if CreditedCount(g, pb, k) == 0 then 0
                            else Min(CreditedCount(p, gb, k), CreditedCount(g, pb, k))
      ensures Get(tp, k) + Get(fp, k) == CountKind(p, k) && Get(tp, k) + Get(fn, k) == CountKind(g, k)
      ensures 0 <= Get(tp, k) && 0 <= Get(fp, k) && 0 <= Get(fn, k)
    {
      InexactKey(g, p, gb, pb, k);
    }
  }

  // ------------------------------------------------------ corpus evaluation

  /** The number of spans over all documents. */
  function TotalSpans(docs: seq<seq<Span>>): nat {
    if docs == [] then 0 else TotalSpans(docs[..|docs| - 1]) + |docs[|docs| - 1]|
  }

  /** The number of spans with label `k` over all documents. */
  function CorpusKind(docs: seq<seq<Span>>, k: string): nat {
    if docs == [] then 0 else CorpusKind(docs[..|docs| - 1], k) + CountKind(docs[|docs| - 1], k)
  }

  /** Gold and predicted corpora hold the same, non-zero number of documents of pairwise equal length. */
  predicate Aligned(goldBio: seq<seq<string>>, predBio: seq<seq<string>>) {
    |goldBio| == |predBio| > 0 && forall d | 0 <= d < |goldBio| :: |goldBio[d]| == |predBio[d]|
  }

  /** The counters `eval_triples_exact` (exact) or `eval_inexact` (inexact) gives one document. */
  function DocCounts(g: seq<Span>, p: seq<Span>, gb: seq<string>, pb: seq<string>, exact: bool): (Counter, Counter, Counter)
    requires NoDup(g) && NoDup(p)
  {
    if exact then EvalTriplesExact(g, p)
    else (InexactTp(g, p, gb, pb), InexactFp(g, p, gb, pb), InexactFn(g, p, gb, pb))
  }

  /**
   * The counters of one document: those of `eval_triples_exact` in exact
   * mode and those of `eval_inexact` otherwise, with their identities.
   */
  method EvalDocument(g: seq<Span>, p: seq<Span>, gb: seq<string>, pb: seq<string>, exact: bool)
    returns (tp: Counter, fp: Counter, fn: Counter)
    requires NoDup(g) && NoDup(p)
    ensures exact ==> (tp, fp, fn) == EvalTriplesExact(g, p)
    ensures !exact ==> tp == InexactTp(g, p, gb, pb) && fp == InexactFp(g, p, gb, pb) && fn == InexactFn(g, p, gb, pb)
    ensures Valid(tp) && Valid(fp) && Valid(fn)
    ensures forall k :: Get(tp, k) + Get(fp, k) == CountKind(p, k) && Get(tp, k) + Get(fn, k) == CountKind(g, k)
    ensures forall k :: 0 <= Get(tp, k) && 0 <= Get(fp, k) && 0 <= Get(fn, k)
    ensures Sum(tp) + Sum(fp) == |p| && Sum(tp) + Sum(fn) == |g|
    ensures exact ==> Sum(tp) == |Inter(g, p)|
  {
    if exact {
      var r := EvalTriplesExact(g, p);
      tp, fp, fn := r.0, r.1, r.2;
    } else {
      tp, fp, fn := EvalInexact(g, p, gb, pb);
    }
  }

  /**
   * The counters `tp`, `fp`, `fn` account for the documents `gold` and
   * `pred`: per label, true plus false positives is the number of predicted
   * spans of the label and true positives plus false negatives the number of
   * gold spans, and likewise for the totals.
   */
  ghost predicate Tallies(tp: Counter, fp: Counter, fn: Counter, gold: seq<seq<Span>>, pred: seq<seq<Span>>)
  {
    Valid(tp) && Valid(fp) && Valid(fn) &&
    Sum(tp) + Sum(fp) == TotalSpans(pred) && Sum(tp) + Sum(fn) == TotalSpans(gold) &&
    (forall k :: Get(tp, k) + Get(fp, k) == CorpusKind(pred, k)) &&
    (forall k :: Get(tp, k) + Get(fn, k) == CorpusKind(gold, k))
  }

  /** The documents are paired with their tag sequences, and no document repeats a span. */
  predicate Paired(gold: seq<seq<Span>>, pred: seq<seq<Span>>, goldBio: seq<seq<string>>, predBio: seq<seq<string>>) {
    |gold| == |pred| == |goldBio| == |predBio| &&
    forall d | 0 <= d < |gold| :: NoDup(gold[d]) && NoDup(pred[d])
  }

  /** Each document's own counters, in document order. */
  function DocsCounts(gold: seq<seq<Span>>, pred: seq<seq<Span>>, goldBio: seq<seq<string>>, predBio: seq<seq<string>>,
                      exact: bool): (r: seq<(Counter, Counter, Counter)>)
    requires Paired(gold, pred, goldBio, predBio)
  {
    seq(|gold|, d requires 0 <= d < |gold| => DocCounts(gold[d], pred[d], goldBio[d], predBio[d], exact))
  }

  /** Label `k`'s true positives, false positives and false negatives, summed over counter triples. */
  function SumAt(cs: seq<(Counter, Counter, Counter)>, k: string): (int, int, int) {
    if cs == [] then (0, 0, 0)
    else
      var s, c := SumAt(cs[..|cs| - 1], k), cs[|cs| - 1];
      (s.0 + Get(c.0, k), s.1 + Get(c.1, k), s.2 + Get(c.2, k))
  }

  /** Counter `i` of a triple: 0 the true positives, 1 the false positives, 2 the false negatives. */
  function Side(c: (Counter, Counter, Counter), i: nat): Counter
    requires i < 3
  {
    if i == 0 then c.0 else if i == 1 then c.1 else c.2
  }

  /** The keys counter `i` has in any of the triples `cs`, zero counts included. */
  function SideKeys(cs: seq<(Counter, Counter, Counter)>, i: nat): set<string>
    requires i < 3
  {
    if cs == [] then {} else SideKeys(cs[..|cs| - 1], i) + Keys(Side(cs[|cs| - 1], i))
  }

  /** A label is a key of the union iff it is a key of counter `i` of some document. */
  lemma {:induction false} SideKeysMembers(cs: seq<(Counter, Counter, Counter)>, i: nat, k: string)
    requires i < 3
    ensures k in SideKeys(cs, i) <==> exists d | 0 <= d < |cs| :: k in Keys(Side(cs[d], i))
  {
    if cs != [] {
      var n := |cs| - 1;
      SideKeysMembers(cs[..n], i, k);
      if k in SideKeys(cs[..n], i) {
        var d :| 0 <= d < n && k in Keys(Side(cs[..n][d], i));
        assert cs[d] == cs[..n][d];
      }
      if d :| 0 <= d < |cs| && k in Keys(Side(cs[d], i)) {
        if d < n {
          assert cs[..n][d] == cs[d];
        }
      }
    }
  }

  /**
   * What `tp.update(tp_)` and its two companions build: per label, the sum
   * over the documents of each document's own counts; and as keys, every
   * label any document's counter has, even with a zero count.
   */
  ghost predicate Accumulated(tp: Counter, fp: Counter, fn: Counter, gold: seq<seq<Span>>, pred: seq<seq<Span>>,
                              goldBio: seq<seq<string>>, predBio: seq<seq<string>>, exact: bool)
  {
    Paired(gold, pred, goldBio, predBio) &&
    var cs := DocsCounts(gold, pred, goldBio, predBio, exact);
    (forall k :: (Get(tp, k), Get(fp, k), Get(fn, k)) == SumAt(cs, k)) && KeysFrom(tp, fp, fn, cs)
  }

  /** The keys of `tp`, `fp` and `fn` are those their counterparts have in any of the triples `cs`. */
  predicate KeysFrom(tp: Counter, fp: Counter, fn: Counter, cs: seq<(Counter, Counter, Counter)>) {
    Keys(tp) == SideKeys(cs, 0) && Keys(fp) == SideKeys(cs, 1) && Keys(fn) == SideKeys(cs, 2)
  }

  /**
   * The keys of the accumulated counters: a label is a key of `tp` (of `fp`,
   * of `fn`) iff it is a key of that counter for some document, whatever
   * its count; `Counter.update` keeps zero-count keys.
   */
  lemma AccumulatedKeys(tp: Counter, fp: Counter, fn: Counter, gold: seq<seq<Span>>, pred: seq<seq<Span>>,
                        goldBio: seq<seq<string>>, predBio: seq<seq<string>>, exact: bool, k: string)
    requires Accumulated(tp, fp, fn, gold, pred, goldBio, predBio, exact)
    ensures k in Keys(tp) <==>
      exists d | 0 <= d < |gold| :: k in Keys(DocCounts(gold[d], pred[d], goldBio[d], predBio[d], exact).0)
    ensures k in Keys(fp) <==>
      exists d | 0 <= d < |gold| :: k in Keys(DocCounts(gold[d], pred[d], goldBio[d], predBio[d], exact).1)
    ensures k in Keys(fn) <==>
      exists d | 0 <= d < |gold| :: k in Keys(DocCounts(gold[d], pred[d], goldBio[d], predBio[d], exact).2)
  {
    DocsSideKeys(gold, pred, goldBio, predBio, exact, 0, k);
    DocsSideKeys(gold, pred, goldBio, predBio, exact, 1, k);
    DocsSideKeys(gold, pred, goldBio, predBio, exact, 2, k);
  }

  lemma DocsSideKeys(gold: seq<seq<Span>>, pred: seq<seq<Span>>, goldBio: seq<seq<string>>, predBio: seq<seq<string>>,
                     exact: bool, i: nat, k: string)
    requires Paired(gold, pred, goldBio, predBio) && i < 3
    ensures k in SideKeys(DocsCounts(gold, pred, goldBio, predBio, exact), i) <==>
      exists d | 0 <= d < |gold| :: k in Keys(Side(DocCounts(gold[d], pred[d], goldBio[d], predBio[d], exact), i))
  {
    var cs := DocsCounts(gold, pred, goldBio, predBio, exact);
    SideKeysMembers(cs, i, k);
    assert forall d | 0 <= d < |gold| :: cs[d] == DocCounts(gold[d], pred[d], goldBio[d], predBio[d], exact);
  }

  /** Label `k`'s spans, over the corpus, that are in both documents of a pair. */
  function CorpusShared(gold: seq<seq<Span>>, pred: seq<seq<Span>>, k: string): nat
    requires |gold| == |pred|
  {
    if gold == [] then 0
    else
      var n := |gold| - 1;
      CorpusShared(gold[..n], pred[..n], k) + CountKind(Inter(gold[n], pred[n]), k)
  }

  /** Label `k`'s spans, over the corpus, that are only in the predicted document of a pair. */
  function CorpusPredOnly(gold: seq<seq<Span>>, pred: seq<seq<Span>>, k: string): nat
    requires |gold| == |pred|
  {
    if gold == [] then 0
    else
      var n := |gold| - 1;
      CorpusPredOnly(gold[..n], pred[..n], k) + CountKind(Minus(pred[n], gold[n]), k)
  }

  /** Label `k`'s spans, over the corpus, that are only in the gold document of a pair. */
  function CorpusGoldOnly(gold: seq<seq<Span>>, pred: seq<seq<Span>>, k: string): nat
    requires |gold| == |pred|
  {
    if gold == [] then 0
    else
      var n := |gold| - 1;
      CorpusGoldOnly(gold[..n], pred[..n], k) + CountKind(Minus(gold[n], pred[n]), k)
  }

  /**
   * In exact mode the accumulated counters hold, label by label, the corpus
   * totals of shared spans (true positives), predicted-only spans (false
   * positives) and gold-only spans (false negatives).
   */
  lemma ExactCorpus(tp: Counter, fp: Counter, fn: Counter, gold: seq<seq<Span>>, pred: seq<seq<Span>>,
                    goldBio: seq<seq<string>>, predBio: seq<seq<string>>, k: string)
    requires Accumulated(tp, fp, fn, gold, pred, goldBio, predBio, true)
    ensures Get(tp, k) == CorpusShared(gold, pred, k)
    ensures Get(fp, k) == CorpusPredOnly(gold, pred, k)
    ensures Get(fn, k) == CorpusGoldOnly(gold, pred, k)
  {
    SumAtExact(gold, pred, goldBio, predBio, k);
  }

  lemma {:induction false} SumAtExact(gold: seq<seq<Span>>, pred: seq<seq<Span>>,
                                      goldBio: seq<seq<string>>, predBio: seq<seq<string>>, k: string)
    requires Paired(gold, pred, goldBio, predBio)
    ensures var s := SumAt(DocsCounts(gold, pred, goldBio, predBio, true), k);
      s.0 == CorpusShared(gold, pred, k) && s.1 == CorpusPredOnly(gold, pred, k) && s.2 == CorpusGoldOnly(gold, pred, k)
    decreases |gold|
  {
    if gold != [] {
      var n := |gold| - 1;
      var cs := DocsCounts(gold, pred, goldBio, predBio, true);
      assert Paired(gold[..n], pred[..n], goldBio[..n], predBio[..n]);
      SumAtExact(gold[..n], pred[..n], goldBio[..n], predBio[..n], k);
      assert cs[..n] == DocsCounts(gold[..n], pred[..n], goldBio[..n], predBio[..n], true);
      assert cs[n] == EvalTriplesExact(gold[n], pred[n]);
      ExactStep(cs, gold[n], pred[n], k);
    } else {
      assert DocsCounts(gold, pred, goldBio, predBio, true) == [];
    }
  }

  /** Adding one exact-mode document to a running sum adds its shared, predicted-only and gold-only counts. */
  lemma ExactStep(cs: seq<(Counter, Counter, Counter)>, g: seq<Span>, p: seq<Span>, k: string)
    requires NoDup(g) && NoDup(p) && |cs| > 0 && cs[|cs| - 1] == EvalTriplesExact(g, p)
    ensures SumAt(cs, k).0 == SumAt(cs[..|cs| - 1], k).0 + CountKind(Inter(g, p), k)
    ensures SumAt(cs, k).1 == SumAt(cs[..|cs| - 1], k).1 + CountKind(Minus(p, g), k)
    ensures SumAt(cs, k).2 == SumAt(cs[..|cs| - 1], k).2 + CountKind(Minus(g, p), k)
  {
    var c := cs[|cs| - 1];
    assert Get(c.0, k) == CountKind(Inter(g, p), k);
    assert Get(c.1, k) == CountKind(Minus(p, g), k);
    assert Get(c.2, k) == CountKind(Minus(g, p), k);
  }

  /** No decoded document has a repeated span. */
  lemma DecodedDistinct(docs: seq<seq<string>>)
    requires DecodeAll(docs).Ok?
    ensures |DecodeAll(docs).value| == |docs|
    ensures forall d | 0 <= d < |docs| :: NoDup(DecodeAll(docs).value[d])
  {
    forall d | 0 <= d < |docs| ensures NoDup(DecodeAll(docs).value[d]) {
      DecodeDistinct(docs[d]);
    }
  }

  /** One step of the accumulation loop of `eval_sequence`: one more document's counters added. */
  method AddDocument(tp: Counter, fp: Counter, fn: Counter, gold: seq<seq<Span>>, pred: seq<seq<Span>>,
                     goldBio: seq<seq<string>>, predBio: seq<seq<string>>,
                     g: seq<Span>, p: seq<Span>, gb: seq<string>, pb: seq<string>, exact: bool)
    returns (tp': Counter, fp': Counter, fn': Counter)
    requires Tallies(tp, fp, fn, gold, pred) && NoDup(g) && NoDup(p)
    requires Accumulated(tp, fp, fn, gold, pred, goldBio, predBio, exact)
    ensures Tallies(tp', fp', fn', gold + [g], pred + [p])
    ensures Accumulated(tp', fp', fn', gold + [g], pred + [p], goldBio + [gb], predBio + [pb], exact)
  {
    var dtp, dfp, dfn := EvalDocument(g, p, gb, pb, exact);
    TalliesAdd(tp, fp, fn, gold, pred, g, p, dtp, dfp, dfn);
    DocsSnoc(gold, pred, goldBio, predBio, g, p, gb, pb, exact);
    AccumulatedAdd(tp, fp, fn, gold, pred, goldBio, predBio, g, p, gb, pb, exact, (dtp, dfp, dfn));
    tp', fp', fn' := Update(tp, dtp), Update(fp, dfp), Update(fn, dfn);
  }

  /** Adding one document's counters adds its counts to the per-label corpus sums. */
  lemma AccumulatedAdd(tp: Counter, fp: Counter, fn: Counter, gold: seq<seq<Span>>, pred: seq<seq<Span>>,
                       goldBio: seq<seq<string>>, predBio: seq<seq<string>>,
                       g: seq<Span>, p: seq<Span>, gb: seq<string>, pb: seq<string>, exact: bool,
                       c: (Counter, Counter, Counter))
    requires Accumulated(tp, fp, fn, gold, pred, goldBio, predBio, exact)
    requires Paired(gold + [g], pred + [p], goldBio + [gb], predBio + [pb])
    requires DocsCounts(gold + [g], pred + [p], goldBio + [gb], predBio + [pb], exact) ==
      DocsCounts(gold, pred, goldBio, predBio, exact) + [c]
    requires Valid(c.0) && Valid(c.1) && Valid(c.2)
    ensures Accumulated(Update(tp, c.0), Update(fp, c.1), Update(fn, c.2),
                        gold + [g], pred + [p], goldBio + [gb], predBio + [pb], exact)
  {
    var cs := DocsCounts(gold, pred, goldBio, predBio, exact);
    forall k ensures (Get(Update(tp, c.0), k), Get(Update(fp, c.1), k), Get(Update(fn, c.2), k)) == SumAt(cs + [c], k) {
      AddAt(tp, fp, fn, cs, c, k);
    }
    UpdateFacts(tp, c.0);
    UpdateFacts(fp, c.1);
    UpdateFacts(fn, c.2);
    assert (cs + [c])[..|cs|] == cs;
    assert SideKeys(cs + [c], 0) == SideKeys(cs, 0) + Keys(c.0);
    assert SideKeys(cs + [c], 1) == SideKeys(cs, 1) + Keys(c.1);
    assert SideKeys(cs + [c], 2) == SideKeys(cs, 2) + Keys(c.2);
  }

  /** One label's sums after one more counter triple is added. */
  lemma AddAt(tp: Counter, fp: Counter, fn: Counter, cs: seq<(Counter, Counter, Counter)>, c: (Counter, Counter, Counter),
              k: string)
    requires (Get(tp, k), Get(fp, k), Get(fn, k)) == SumAt(cs, k)
    requires Valid(c.0) && Valid(c.1) && Valid(c.2)
    ensures (Get(Update(tp, c.0), k), Get(Update(fp, c.1), k), Get(Update(fn, c.2), k)) == SumAt(cs + [c], k)
  {
    UpdateFacts(tp, c.0);
    UpdateFacts(fp, c.1);
    UpdateFacts(fn, c.2);
    assert (cs + [c])[..|cs|] == cs;
  }

  /** One more document adds its counters to the end of the list. */
  lemma DocsSnoc(gold: seq<seq<Span>>, pred: seq<seq<Span>>, goldBio: seq<seq<string>>, predBio: seq<seq<string>>,
                 g: seq<Span>, p: seq<Span>, gb: seq<string>, pb: seq<string>, exact: bool)
    requires Paired(gold, pred, goldBio, predBio) && NoDup(g) && NoDup(p)
    ensures Paired(gold + [g], pred + [p], goldBio + [gb], predBio + [pb])
    ensures DocsCounts(gold + [g], pred + [p], goldBio + [gb], predBio + [pb], exact) ==
      DocsCounts(gold, pred, goldBio, predBio, exact) + [DocCounts(g, p, gb, pb, exact)]
  {
  }

  lemma TalliesAdd(tp: Counter, fp: Counter, fn: Counter, gold: seq<seq<Span>>, pred: seq<seq<Span>>,
                   g: seq<Span>, p: seq<Span>, dtp: Counter, dfp: Counter, dfn: Counter)
    requires Tallies(tp, fp, fn, gold, pred)
    requires Valid(dtp) && Valid(dfp) && Valid(dfn)
    requires forall k :: Get(dtp, k) + Get(dfp, k) == CountKind(p, k) && Get(dtp, k) + Get(dfn, k) == CountKind(g, k)
    requires Sum(dtp) + Sum(dfp) == |p| && Sum(dtp) + Sum(dfn) == |g|
    ensures Tallies(Update(tp, dtp), Update(fp, dfp), Update(fn, dfn), gold + [g], pred + [p])
  {
    UpdateFacts(tp, dtp);
    UpdateFacts(fp, dfp);
    UpdateFacts(fn, dfn);
    assert (pred + [p])[..|pred|] == pred && (gold + [g])[..|gold|] == gold;
    assert TotalSpans(pred + [p]) == TotalSpans(pred) + |p|;
    assert TotalSpans(gold + [g]) == TotalSpans(gold) + |g|;
    forall k ensures Get(Update(tp, dtp), k) + Get(Update(fp, dfp), k) == CorpusKind(pred + [p], k) {
      assert CorpusKind(pred + [p], k) == CorpusKind(pred, k) + CountKind(p, k);
    }
    forall k ensures Get(Update(tp, dtp), k) + Get(Update(fn, dfn), k) == CorpusKind(gold + [g], k) {
      assert CorpusKind(gold + [g], k) == CorpusKind(gold, k) + CountKind(g, k);
    }
  }

  /** Before the first document the empty counters account for nothing. */
  lemma NoDocuments(gold: seq<seq<Span>>, pred: seq<seq<Span>>, goldBio: seq<seq<string>>, predBio: seq<seq<string>>,
                    exact: bool)
    ensures Tallies([], [], [], gold[..0], pred[..0])
    ensures Accumulated([], [], [], gold[..0], pred[..0], goldBio[..0], predBio[..0], exact)
  {
    assert gold[..0] == [] && pred[..0] == [] && goldBio[..0] == [] && predBio[..0] == [];
    assert Keys([]) == {};
  }

  /** After the last document the counters account for the whole corpus. */
  lemma AllDocuments(tp: Counter, fp: Counter, fn: Counter, gold: seq<seq<Span>>, pred: seq<seq<Span>>,
                     goldBio: seq<seq<string>>, predBio: seq<seq<string>>, exact: bool)
    requires |gold| == |pred| == |goldBio| == |predBio|
    requires Tallies(tp, fp, fn, gold[..|gold|], pred[..|gold|])
    requires Accumulated(tp, fp, fn, gold[..|gold|], pred[..|gold|], goldBio[..|gold|], predBio[..|gold|], exact)
    ensures Tallies(tp, fp, fn, gold, pred)
    ensures Accumulated(tp, fp, fn, gold, pred, goldBio, predBio, exact)
  {
    assert pred[..|pred|] == pred && gold[..|gold|] == gold;
    assert predBio[..|pred|] == predBio && goldBio[..|gold|] == goldBio;
  }

  /** The accumulation loop of `eval_sequence` over decoded documents, with its two closing sanity checks. */
  method EvalCorpus(gold: seq<seq<Span>>, pred: seq<seq<Span>>, goldBio: seq<seq<string>>, predBio: seq<seq<string>>,
                    exact: bool)
    returns (tp: Counter, fp: Counter, fn: Counter)
    requires |gold| == |pred| == |goldBio| == |predBio|
    requires forall d | 0 <= d < |gold| :: NoDup(gold[d]) && NoDup(pred[d])
    ensures Tallies(tp, fp, fn, gold, pred)
    ensures Accumulated(tp, fp, fn, gold, pred, goldBio, predBio, exact)
  {
    tp, fp, fn := [], [], [];
    NoDocuments(gold, pred, goldBio, predBio, exact);
    for d := 0 to |gold|
      invariant Tallies(tp, fp, fn, gold[..d], pred[..d])
      invariant Accumulated(tp, fp, fn, gold[..d], pred[..d], goldBio[..d], predBio[..d], exact)
    {
      TakeSnoc(gold, d + 1);
      TakeSnoc(pred, d + 1);
      TakeSnoc(goldBio, d + 1);
      TakeSnoc(predBio, d + 1);
      tp, fp, fn := AddDocument(tp, fp, fn, gold[..d], pred[..d], goldBio[..d], predBio[..d],
                                gold[d], pred[d], goldBio[d], predBio[d], exact);
    }
    AllDocuments(tp, fp, fn, gold, pred, goldBio, predBio, exact);
    // the sanity checks of the source
    assert Sum(tp) + Sum(fp) == TotalSpans(pred);
    assert Sum(tp) + Sum(fn) == TotalSpans(gold);
  }

  /**
   * `eval_sequence` over a corpus of documents: the checks on the inputs,
   * then the per-document counters added up label by label. The two sanity
   * identities the source asserts at the end are proved here.
   */
  method EvalSequence(goldBio: seq<seq<string>>, predBio: seq<seq<string>>, exact: bool)
    returns (r: Result<(Counter, Counter, Counter)>)
    ensures |goldBio| != |predBio| ==> r == Err(AssertionError)
    ensures |goldBio| == |predBio| == 0 ==> r == Err(IndexError)
    ensures |goldBio| == |predBio| && (exists d :: 0 <= d < |goldBio| && |goldBio[d]| != |predBio[d]|) ==>
      r == Err(AssertionError)
    ensures Aligned(goldBio, predBio) ==>
      (r.Ok? <==> DecodeAll(goldBio).Ok? && DecodeAll(predBio).Ok?) && (r.Err? ==> r.error == IndexError)
    ensures r.Ok? ==> Aligned(goldBio, predBio) && DecodeAll(goldBio).Ok? && DecodeAll(predBio).Ok?
    ensures r.Ok? ==> Tallies(r.value.0, r.value.1, r.value.2, DecodeAll(goldBio).value, DecodeAll(predBio).value)
    ensures r.Ok? ==>
      Accumulated(r.value.0, r.value.1, r.value.2, DecodeAll(goldBio).value, DecodeAll(predBio).value, goldBio, predBio, exact)
  {
    if |goldBio| != |predBio| {
      return Err(AssertionError);
    }
    if |goldBio| == 0 {
      return Err(IndexError);
    }
    for d := 0 to |goldBio|
      invariant forall e | 0 <= e < d :: |goldBio[e]| == |predBio[e]|
    {
      if |goldBio[d]| != |predBio[d]| {
        return Err(AssertionError);
      }
    }
    var gd := DecodeAll(goldBio);
    if gd.Err? {
      return Err(gd.error);
    }
    var pd := DecodeAll(predBio);
    if pd.Err? {
      return Err(pd.error);
    }
    DecodedDistinct(goldBio);
    DecodedDistinct(predBio);
    var tp, fp, fn := EvalCorpus(gd.value, pd.value, goldBio, predBio, exact);
    r := Ok((tp, fp, fn));
  }

  /** `eval_sequence` on one flat tag sequence per side, which it wraps as a one-document corpus. */
  method EvalSequenceFlat(goldBio: seq<string>, predBio: seq<string>, exact: bool)
    returns (r: Result<(Counter, Counter, Counter)>)
    ensures |goldBio| != |predBio| ==> r == Err(AssertionError)
    ensures |goldBio| == |predBio| == 0 ==> r == Err(IndexError)
    ensures |goldBio| == |predBio| > 0 ==>
      (r.Ok? <==> Decode(goldBio).Ok? && Decode(predBio).Ok?) && (r.Err? ==> r.error == IndexError)
    ensures r.Ok? ==> Decode(goldBio).Ok? && Decode(predBio).Ok?
    ensures r.Ok? ==>
      var tp, fp, fn := r.value.0, r.value.1, r.value.2;
      Sum(tp) + Sum(fp) == |Decode(predBio).value| && Sum(tp) + Sum(fn) == |Decode(goldBio).value| &&
      forall k :: Get(tp, k) + Get(fp, k) == CountKind(Decode(predBio).value, k) &&
                  Get(tp, k) + Get(fn, k) == CountKind(Decode(goldBio).value, k)
    ensures r.Ok? ==>
      Accumulated(r.value.0, r.value.1, r.value.2, [Decode(goldBio).value], [Decode(predBio).value], [goldBio], [predBio], exact)
  {
    if |goldBio| != |predBio| {
      return Err(AssertionError);
    }
    if |goldBio| == 0 {
      return Err(IndexError);
    }
    r := EvalSequence([goldBio], [predBio], exact);
    if r.Ok? {
      var gs, ps := Decode(goldBio).value, Decode(predBio).value;
      assert DecodeAll([goldBio]).value == [gs];
      assert DecodeAll([predBio]).value == [ps];
      assert [gs][..0] == [] && [ps][..0] == [];
      assert TotalSpans([gs]) == |gs| && TotalSpans([ps]) == |ps|;
      forall k ensures CorpusKind([gs], k) == CountKind(gs, k) && CorpusKind([ps], k) == CountKind(ps, k) {
      }
    }
  }

  // ------------------------------------------------------------------ sigf

  /**
   * What a `sigf` triple says about one document: the predicted and gold
   * span counts, and the true positives summed over the labels (the exact
   * intersection in exact mode, the inexact per-label minima otherwise),
   * bounded by both counts.
   */
  predicate SigfRow(t: (int, int, int), g: seq<Span>, p: seq<Span>, gb: seq<string>, pb: seq<string>, exact: bool)
  {
    t.1 == |p| && t.2 == |g| && 0 <= t.0 <= Min(|p|, |g|) &&
    t.0 == (if exact then |Inter(g, p)| else Sum(InexactTp(g, p, gb, pb)))
  }

  /** One document's triple `(tp, fp + tp, fn + tp)`. */
  method SigfDocument(g: seq<Span>, p: seq<Span>, gb: seq<string>, pb: seq<string>, exact: bool)
    returns (t: (int, int, int))
    requires NoDup(g) && NoDup(p)
    ensures SigfRow(t, g, p, gb, pb, exact)
  {
    var tp, fp, fn := EvalDocument(g, p, gb, pb, exact);
    SumNonneg(tp);
    SumNonneg(fp);
    SumNonneg(fn);
    t := (Sum(tp), Sum(fp) + Sum(tp), Sum(fn) + Sum(tp));
  }

  /** The loop of `sigf_evaluation_output` over the documents paired by position. */
  method SigfRows(gold: seq<seq<Span>>, pred: seq<seq<Span>>, goldBio: seq<seq<string>>, predBio: seq<seq<string>>,
                  exact: bool)
    returns (out: seq<(int, int, int)>)
    requires |gold| == |goldBio| && |pred| == |predBio|
    requires forall d | 0 <= d < |gold| :: NoDup(gold[d])
    requires forall d | 0 <= d < |pred| :: NoDup(pred[d])
    ensures |out| == Min(|gold|, |pred|)
    ensures forall d | 0 <= d < |out| :: SigfRow(out[d], gold[d], pred[d], goldBio[d], predBio[d], exact)
  {
    var n := Min(|gold|, |pred|);
    out := [];
    for d := 0 to n
      invariant |out| == d
      invariant forall e | 0 <= e < d :: SigfRow(out[e], gold[e], pred[e], goldBio[e], predBio[e], exact)
    {
      var t := SigfDocument(gold[d], pred[d], goldBio[d], predBio[d], exact);
      out := out + [t];
    }
  }

  /**
   * The per-document triples `(tp, fp + tp, fn + tp)` of
   * `sigf_evaluation_output`, for the documents paired by position; each is
   * `(tp, number of predicted spans, number of gold spans)`.
   */
  method SigfTriples(goldBio: seq<seq<string>>, predBio: seq<seq<string>>, exact: bool)
    returns (r: Result<seq<(int, int, int)>>)
    ensures goldBio == [] || predBio == [] ==> r == Err(IndexError)
    ensures goldBio != [] && predBio != [] ==>
      (r.Ok? <==> DecodeAll(goldBio).Ok? && DecodeAll(predBio).Ok?) && (r.Err? ==> r.error == IndexError)
    ensures r.Ok? ==> DecodeAll(goldBio).Ok? && DecodeAll(predBio).Ok?
    ensures r.Ok? ==>
      var gold, pred := DecodeAll(goldBio).value, DecodeAll(predBio).value;
      |r.value| == Min(|gold|, |pred|) &&
      forall d | 0 <= d < |r.value| :: SigfRow(r.value[d], gold[d], pred[d], goldBio[d], predBio[d], exact)
  {
    if goldBio == [] || predBio == [] {
      return Err(IndexError);
    }
    var gd := DecodeAll(goldBio);
    if gd.Err? {
      return Err(gd.error);
    }
    var pd := DecodeAll(predBio);
    if pd.Err? {
      return Err(pd.error);
    }
    DecodedDistinct(goldBio);
    DecodedDistinct(predBio);
    var out := SigfRows(gd.value, pd.value, goldBio, predBio, exact);
    r := Ok(out);
  }

  /**
   * `sigf_evaluation_output` on one flat tag sequence per side: each side is
   * wrapped on its own test as a one-document corpus, giving one triple.
   */
  method SigfTriplesFlat(goldBio: seq<string>, predBio: seq<string>, exact: bool)
    returns (r: Result<seq<(int, int, int)>>)
    ensures goldBio == [] || predBio == [] ==> r == Err(IndexError)
    ensures goldBio != [] && predBio != [] ==>
      (r.Ok? <==> Decode(goldBio).Ok? && Decode(predBio).Ok?) && (r.Err? ==> r.error == IndexError)
    ensures r.Ok? ==>
      Decode(goldBio).Ok? && Decode(predBio).Ok? && |r.value| == 1 &&
      SigfRow(r.value[0], Decode(goldBio).value, Decode(predBio).value, goldBio, predBio, exact)
  {
    if goldBio == [] || predBio == [] {
      return Err(IndexError);
    }
    r := SigfTriples([goldBio], [predBio], exact);
    if r.Ok? {
      assert DecodeAll([goldBio]).value[0] == Decode(goldBio).value;
      assert DecodeAll([predBio]).value[0] == Decode(predBio).value;
    }
  }

  // ------------------------------------------------------ precision/recall

  datatype Average = NoAverage | Macro | Micro

  datatype Scores =
    | PerLabel(precisions: seq<(string, real)>, recalls: seq<(string, real)>, f1s: seq<(string, real)>)
    | Overall(precision: real, recall: real, f1: real)

  function Ratio(a: int, b: int): real
    requires b != 0
  {
    a as real / b as real
  }

  /** The F-score: twice the product over the sum. */
  function F1(p: real, r: real): real
    requires p + r != 0.0
  {
    2.0 * ((p * r) / (p + r))
  }

  /** `{k: v / den[k] for k, v in num.items()}`. */
  function Divide(num: Counter, den: Counter): (r: seq<(string, real)>)
    requires forall i | 0 <= i < |num| :: Get(den, num[i].0) != 0
    ensures |r| == |num|
    ensures forall i | 0 <= i < |num| :: r[i] == (num[i].0, Ratio(num[i].1, Get(den, num[i].0)))
  {
    seq(|num|, i requires 0 <= i < |num| => (num[i].0, Ratio(num[i].1, Get(den, num[i].0))))
  }

  function F1s(ps: seq<(string, real)>, rs: seq<(string, real)>): (r: seq<(string, real)>)
    requires |ps| == |rs| && forall i | 0 <= i < |ps| :: ps[i].1 + rs[i].1 != 0.0
    ensures |r| == |ps| && forall i | 0 <= i < |ps| :: r[i] == (ps[i].0, F1(ps[i].1, rs[i].1))
  {
    seq(|ps|, i requires 0 <= i < |ps| => (ps[i].0, F1(ps[i].1, rs[i].1)))
  }

  function SumValues(xs: seq<(string, real)>): real {
    if xs == [] then 0.0 else xs[0].1 + SumValues(xs[1..])
  }

  /** What the per-label scores need: every true-positive label has positive denominators and a non-zero count. */
  predicate PerLabelDefined(tp: Counter, fp: Counter, fn: Counter) {
    Valid(tp) &&
    forall i | 0 <= i < |tp| ::
      tp[i].1 + Get(fp, tp[i].0) > 0 && tp[i].1 + Get(fn, tp[i].0) > 0 && tp[i].1 != 0
  }

  /** What the micro scores need: non-zero summed denominators and a non-zero sum of their ratios. */
  predicate MicroDefined(tp: Counter, fp: Counter, fn: Counter) {
    Sum(tp) + Sum(fp) != 0 && Sum(tp) + Sum(fn) != 0 && Sum(tp) != 0 &&
    (Sum(tp) + Sum(fp)) + (Sum(tp) + Sum(fn)) != 0
  }

  lemma DenominatorsFacts(tp: Counter, fp: Counter, fn: Counter)
    requires PerLabelDefined(tp, fp, fn)
    ensures forall i | 0 <= i < |tp| ::
      Get(AddPositive(tp, fp), tp[i].0) == tp[i].1 + Get(fp, tp[i].0) &&
      Get(AddPositive(tp, fn), tp[i].0) == tp[i].1 + Get(fn, tp[i].0) &&
      Get(tp, tp[i].0) == tp[i].1
  {
    forall i | 0 <= i < |tp|
      ensures Get(AddPositive(tp, fp), tp[i].0) == tp[i].1 + Get(fp, tp[i].0)
      ensures Get(AddPositive(tp, fn), tp[i].0) == tp[i].1 + Get(fn, tp[i].0)
      ensures Get(tp, tp[i].0) == tp[i].1
    {
      GetAt(tp, i);
      GetAddPositive(tp, fp, tp[i].0);
      GetAddPositive(tp, fn, tp[i].0);
    }
  }

  /** Two ratios of the same sign over positive denominators do not cancel. */
  lemma RatioSumNonzero(t: int, a: int, b: int)
    requires a > 0 && b > 0 && t != 0
    ensures Ratio(t, a) + Ratio(t, b) != 0.0
  {
    if t > 0 {
      assert Ratio(t, a) > 0.0 && Ratio(t, b) > 0.0;
    } else {
      assert Ratio(-t, a) > 0.0 && Ratio(-t, b) > 0.0;
      assert Ratio(t, a) == -Ratio(-t, a) && Ratio(t, b) == -Ratio(-t, b);
    }
  }

  lemma MicroNonzero(s: int, a: int, b: int)
    requires a != 0 && b != 0 && s != 0 && a + b != 0
    ensures Ratio(s, a) + Ratio(s, b) != 0.0
  {
    var x, y := a as real, b as real;
    assert Ratio(s, a) + Ratio(s, b) == (s as real) * (x + y) / (x * y);
  }

  /**
   * `precision_recall_dict`: per-label precision `tp / (tp + fp)`, recall
   * `tp / (tp + fn)` and F1 over the labels of `tp`, in its order; their
   * unweighted means (macro); or the same ratios of the summed counts (micro).
   */
  function PrecisionRecallDict(tp: Counter, fp: Counter, fn: Counter, average: Average): (r: Scores)
    requires average != Micro ==> PerLabelDefined(tp, fp, fn)
    requires average == Macro ==> |tp| > 0
    requires average == Micro ==> MicroDefined(tp, fp, fn)
    ensures average == NoAverage ==> (r.PerLabel? &&
      |r.precisions| == |tp| && |r.recalls| == |tp| && |r.f1s| == |tp| &&
      forall i | 0 <= i < |tp| ::
        r.precisions[i] == (tp[i].0, Ratio(tp[i].1, tp[i].1 + Get(fp, tp[i].0))) &&
        r.recalls[i] == (tp[i].0, Ratio(tp[i].1, tp[i].1 + Get(fn, tp[i].0))) &&
        r.precisions[i].1 + r.recalls[i].1 != 0.0 &&
        r.f1s[i] == (tp[i].0, F1(r.precisions[i].1, r.recalls[i].1)))
    ensures average == Micro ==> (r.Overall? &&
      r.precision == Ratio(Sum(tp), Sum(tp) + Sum(fp)) &&
      r.recall == Ratio(Sum(tp), Sum(tp) + Sum(fn)) &&
      r.precision + r.recall != 0.0 &&
      r.f1 == F1(r.precision, r.recall))
  {
    if average == Micro then
      var p := Ratio(Sum(tp), Sum(tp) + Sum(fp));
      var rc := Ratio(Sum(tp), Sum(tp) + Sum(fn));
      MicroNonzero(Sum(tp), Sum(tp) + Sum(fp), Sum(tp) + Sum(fn));
      Overall(p, rc, F1(p, rc))
    else
      DenominatorsFacts(tp, fp, fn);
      var ps := Divide(tp, AddPositive(tp, fp));
      var rs := Divide(tp, AddPositive(tp, fn));
      assert forall i | 0 <= i < |tp| :: ps[i].1 + rs[i].1 != 0.0 by {
        forall i | 0 <= i < |tp| ensures ps[i].1 + rs[i].1 != 0.0 {
          RatioSumNonzero(tp[i].1, tp[i].1 + Get(fp, tp[i].0), tp[i].1 + Get(fn, tp[i].0));
        }
      }
      var fs := F1s(ps, rs);
      if average == Macro then
        Overall(SumValues(ps) / |ps| as real, SumValues(rs) / |rs| as real, SumValues(fs) / |fs| as real)
      else
        PerLabel(ps, rs, fs)
  }

  /** Macro scores are the unweighted means of the per-label scores. */
  lemma MacroIsMean(tp: Counter, fp: Counter, fn: Counter)
    requires PerLabelDefined(tp, fp, fn) && |tp| > 0
    ensures var per := PrecisionRecallDict(tp, fp, fn, NoAverage);
      var mac := PrecisionRecallDict(tp, fp, fn, Macro);
      mac.precision == SumValues(per.precisions) / |tp| as real &&
      mac.recall == SumValues(per.recalls) / |tp| as real &&
      mac.f1 == SumValues(per.f1s) / |tp| as real
  {
  }

  /** The F-score lies between precision and recall. */
  lemma F1Between(p: real, r: real)
    requires 0.0 < p && 0.0 < r
    ensures (if p < r then p else r) <= F1(p, r) <= (if p < r then r else p)
  {
    var f := F1(p, r);
    var s := p + r;
    assert f == 2.0 * p * r / s;
    assert f - p == p * (r - p) / s;
    assert r - f == r * (r - p) / s;
    assert f - r == r * (p - r) / s;
    assert p - f == p * (p - r) / s;
    if p <= r {
      assert p * (r - p) >= 0.0 && r * (r - p) >= 0.0;
    } else {
      assert r * (p - r) >= 0.0 && p * (p - r) >= 0.0;
    }
  }

  /**
   * A label with `t > 0` true positives and `a`, `b >= 0` false positives and
   * false negatives gets precision `Ratio(t, t + a)`, recall `Ratio(t, t + b)`
   * and their F1 (the entries `PrecisionRecallDict` computes per label); each
   * of the three lies in `(0, 1]`.
   */
  lemma PerLabelInUnit(t: int, a: int, b: int)
    requires 0 < t && 0 <= a && 0 <= b
    ensures InUnit(Ratio(t, t + a)) && InUnit(Ratio(t, t + b))
    ensures InUnit(F1(Ratio(t, t + a), Ratio(t, t + b)))
  {
    RatioUnit(t, t + a);
    RatioUnit(t, t + b);
    F1Between(Ratio(t, t + a), Ratio(t, t + b));
  }

  /** A score strictly above zero and at most one. */
  predicate InUnit(x: real) {
    0.0 < x <= 1.0
  }

  lemma RatioUnit(t: int, d: int)
    requires 0 < t <= d
    ensures 0.0 < Ratio(t, d) <= 1.0
  {
  }

  /**
   * Micro scores of the counters `eval_sequence` returns (`Tallies` is what
   * `EvalSequence` ensures of them): precision is the summed true positives
   * over the number of predicted spans in the corpus, recall the same over
   * the number of gold spans.
   */
  lemma MicroOverCorpus(tp: Counter, fp: Counter, fn: Counter, gold: seq<seq<Span>>, pred: seq<seq<Span>>)
    requires Tallies(tp, fp, fn, gold, pred)
    requires MicroDefined(tp, fp, fn)
    ensures var s := PrecisionRecallDict(tp, fp, fn, Micro);
      s.precision == Ratio(Sum(tp), TotalSpans(pred)) && s.recall == Ratio(Sum(tp), TotalSpans(gold))
  {
  }
}
