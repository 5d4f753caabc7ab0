/**
 * Conversion of BIO tag sequences to chunk spans, the majority vote over
 * the k nearest neighbours, and the CoNLL line format
 * (conch/evaluation/utils.py).
 */
module Utils {
  import opened Results
  import opened PyText
  import opened Counters

  /** A chunk `(begin, end, label)`: tokens `begin .. end - 1` carry `label`. */
  datatype Span = Span(begin: nat, end: nat, kind: string)

  // ------------------------------------------------------------ decoding

  /** The prefix of a tag: the text before its first `-` ("B" for "B-np"). */
  function Prefix(tag: string): string {
    Head(tag, '-')
  }

  /** The string the pattern `BI*` is searched in: all tag prefixes, joined. */
  function Joined(tags: seq<string>): string {
    if tags == [] then [] else Prefix(tags[0]) + Joined(tags[1..])
  }

  /** Every tag prefix is a single character, so positions in `Joined` are token positions. */
  predicate OneCharPrefixes(tags: seq<string>) {
    forall i | 0 <= i < |tags| :: |Prefix(tags[i])| == 1
  }

  /** The end of the run of `I`s that starts at `j`. */
  function RunEnd(s: string, j: nat): (e: nat)
    requires j <= |s|
    ensures j <= e <= |s|
    ensures forall k | j <= k < e :: s[k] == 'I'
    ensures e == |s| || s[e] != 'I'
    decreases |s| - j
  {
    if j == |s| || s[j] != 'I' then j else RunEnd(s, j + 1)
  }

  /**
   * The leftmost, non-overlapping matches of the pattern `BI*` in `s` from
   * position `i` on, as `(start, end)` pairs: a `B` followed by as many
   * `I`s as there are, after which the search resumes at the match's end.
   */
  function Scan(s: string, i: nat): seq<(nat, nat)>
    requires i <= |s|
    decreases |s| - i
  {
    if i == |s| then []
    else if s[i] == 'B' then [(i, RunEnd(s, i + 1))] + Scan(s, RunEnd(s, i + 1))
    else Scan(s, i + 1)
  }

  /** One match per `B` at or after `i`, in position order, each running to the end of its `I`s. */
  function BStarts(s: string, i: nat): seq<(nat, nat)>
    requires i <= |s|
    decreases |s| - i
  {
    if i == |s| then []
    else (if s[i] == 'B' then [(i, RunEnd(s, i + 1))] else []) + BStarts(s, i + 1)
  }

  /** Attaches labels to the matches: the second `-`-piece of the tag at each start. */
  function Labelled(tags: seq<string>, ms: seq<(nat, nat)>): Result<seq<Span>> {
    if ms == [] then Ok([])
    else if ms[0].0 >= |tags| then Err(IndexError)
    else
      var parts := Split(tags[ms[0].0], "-");
      if |parts| < 2 then Err(IndexError)
      else
        var rest :- Labelled(tags, ms[1..]);
        Ok([Span(ms[0].0, ms[0].1, parts[1])] + rest)
  }

  /** `bio_to_index` on one document. */
  function Decode(tags: seq<string>): Result<seq<Span>> {
    Labelled(tags, Scan(Joined(tags), 0))
  }

  /** `bio_to_index`: one span list per document, or the first error raised. */
  function DecodeAll(docs: seq<seq<string>>): (r: Result<seq<seq<Span>>>)
    ensures r.Ok? <==> forall d | 0 <= d < |docs| :: Decode(docs[d]).Ok?
    ensures r.Ok? ==> |r.value| == |docs|
    ensures r.Ok? ==> forall d | 0 <= d < |docs| :: r.value[d] == Decode(docs[d]).value
    ensures r.Err? ==> r.error == IndexError
  {
    if docs == [] then Ok([])
    else
      var first := Decode(docs[0]);
      LabelledError(docs[0], Scan(Joined(docs[0]), 0));
      if first.Err? then Err(first.error)
      else
        var rest := DecodeAll(docs[1..]);
        if rest.Err? then Err(rest.error) else Ok([first.value] + rest.value)
  }

  // ------------------------------------------------- facts about matching

  lemma {:induction false} LabelledError(tags: seq<string>, ms: seq<(nat, nat)>)
    ensures Labelled(tags, ms).Err? ==> Labelled(tags, ms).error == IndexError
  {
    if ms != [] {
      LabelledError(tags, ms[1..]);
    }
  }

  /** The matches of `BI*` are exactly one per `B`, each running to the end of its `I`s. */
  lemma {:induction false} ScanIsBStarts(s: string, i: nat)
    requires i <= |s|
    ensures Scan(s, i) == BStarts(s, i)
    decreases |s| - i
  {
    if i < |s| {
      if s[i] == 'B' {
        var e := RunEnd(s, i + 1);
        ScanIsBStarts(s, e);
        SkipRun(s, i + 1, e);
      } else {
        ScanIsBStarts(s, i + 1);
      }
    }
  }

  /** A run of `I`s holds no match start. */
  lemma {:induction false} SkipRun(s: string, j: nat, e: nat)
    requires j <= e <= |s|
    requires forall k | j <= k < e :: s[k] == 'I'
    ensures BStarts(s, j) == BStarts(s, e)
    decreases e - j
  {
    if j < e {
      SkipRun(s, j + 1, e);
    }
  }

  /** `m` is a match of `BI*` in `s`: a `B` and the whole run of `I`s after it. */
  predicate IsMatch(s: string, m: (nat, nat)) {
    m.0 < |s| && s[m.0] == 'B' && m.1 == RunEnd(s, m.0 + 1)
  }

  lemma {:induction false} BStartsMatches(s: string, i: nat)
    requires i <= |s|
    ensures forall j | 0 <= j < |BStarts(s, i)| :: i <= BStarts(s, i)[j].0 && IsMatch(s, BStarts(s, i)[j])
    decreases |s| - i
  {
    if i < |s| {
      BStartsMatches(s, i + 1);
    }
  }

  lemma {:induction false} BStartsIncreasing(s: string, i: nat)
    requires i <= |s|
    ensures forall j, j' | 0 <= j < j' < |BStarts(s, i)| :: BStarts(s, i)[j].0 < BStarts(s, i)[j'].0
    decreases |s| - i
  {
    if i < |s| {
      BStartsIncreasing(s, i + 1);
      BStartsMatches(s, i + 1);
    }
  }

  lemma {:induction false} BStartsComplete(s: string, i: nat, p: nat)
    requires i <= p < |s| && s[p] == 'B'
    ensures exists j :: 0 <= j < |BStarts(s, i)| && BStarts(s, i)[j].0 == p
    decreases |s| - i
  {
    var ms := BStarts(s, i);
    if p == i {
      assert ms[0].0 == p;
    } else {
      BStartsComplete(s, i + 1, p);
      var tail := BStarts(s, i + 1);
      var j :| 0 <= j < |tail| && tail[j].0 == p;
      if s[i] == 'B' {
        assert ms[j + 1].0 == p;
      } else {
        assert ms[j].0 == p;
      }
    }
  }

  /** Matches never overlap: each ends at or before the next one starts. */
  lemma BStartsDisjoint(s: string)
    ensures forall j, j' | 0 <= j < j' < |BStarts(s, 0)| :: BStarts(s, 0)[j].1 <= BStarts(s, 0)[j'].0
  {
    var ms := BStarts(s, 0);
    BStartsMatches(s, 0);
    BStartsIncreasing(s, 0);
    forall j, j' | 0 <= j < j' < |ms| ensures ms[j].1 <= ms[j'].0 {
      var b, e, b' := ms[j].0, ms[j].1, ms[j'].0;
      assert s[b'] == 'B';
      assert !(b < b' < e);
    }
  }

  /** `s[q+1..p]` is all `I`s. */
  predicate IRun(s: string, q: nat, p: nat)
    requires q <= p < |s|
  {
    forall k | q < k <= p :: s[k] == 'I'
  }

  /** A position lies in a match iff some `B` before it is followed only by `I`s up to it. */
  lemma BStartsCover(s: string, p: nat)
    requires p < |s|
    ensures (exists j :: 0 <= j < |BStarts(s, 0)| && BStarts(s, 0)[j].0 <= p < BStarts(s, 0)[j].1) <==>
      (exists q :: 0 <= q <= p && s[q] == 'B' && IRun(s, q, p))
  {
    var ms := BStarts(s, 0);
    BStartsMatches(s, 0);
    if j :| 0 <= j < |ms| && ms[j].0 <= p < ms[j].1 {
      var q := ms[j].0;
      assert s[q] == 'B' && IRun(s, q, p);
    }
    if q :| 0 <= q <= p && s[q] == 'B' && IRun(s, q, p) {
      BStartsComplete(s, 0, q);
      var j :| 0 <= j < |ms| && ms[j].0 == q;
      RunEndPast(s, q + 1, p);
      assert ms[j].0 <= p < ms[j].1;
    }
  }

  lemma {:induction false} RunEndPast(s: string, j: nat, p: nat)
    requires j <= p + 1 && p < |s|
    requires forall k | j <= k <= p :: s[k] == 'I'
    ensures RunEnd(s, j) > p
    decreases |s| - j
  {
    if j <= p {
      RunEndPast(s, j + 1, p);
    }
  }

  lemma {:induction false} JoinedFacts(tags: seq<string>)
    requires OneCharPrefixes(tags)
    ensures |Joined(tags)| == |tags|
    ensures forall i | 0 <= i < |tags| :: Prefix(tags[i]) == [Joined(tags)[i]]
  {
    if tags != [] {
      JoinedFacts(tags[1..]);
      forall i | 0 <= i < |tags| ensures Prefix(tags[i]) == [Joined(tags)[i]] {
        if i > 0 {
          assert tags[1..][i - 1] == tags[i];
        }
      }
    }
  }

  /** `split("-")` yields a second piece exactly when the tag contains `-`. */
  lemma SplitHasSecond(t: string)
    ensures |Split(t, "-")| >= 2 <==> '-' in t
  {
    var i := FindFrom(t, "-", 0);
    if i >= 0 {
      OccursAtChar(t, '-', i);
      assert |Split(t, "-")| >= 2;
    } else {
      forall j | 0 <= j < |t| ensures t[j] != '-' {
        OccursAtChar(t, '-', j);
      }
    }
  }

  /** The tag at `b` exists and has a second `-`-piece to use as label. */
  predicate Labellable(tags: seq<string>, b: nat) {
    b < |tags| && |Split(tags[b], "-")| >= 2
  }

  lemma {:induction false} LabelledFacts(tags: seq<string>, ms: seq<(nat, nat)>)
    ensures Labelled(tags, ms).Ok? <==> forall j | 0 <= j < |ms| :: Labellable(tags, ms[j].0)
    ensures Labelled(tags, ms).Ok? ==>
      |Labelled(tags, ms).value| == |ms| &&
      forall j | 0 <= j < |ms| :: Labellable(tags, ms[j].0) &&
        Labelled(tags, ms).value[j] == Span(ms[j].0, ms[j].1, Split(tags[ms[j].0], "-")[1])
  {
    if ms != [] {
      LabelledFacts(tags, ms[1..]);
      assert forall j | 1 <= j < |ms| :: ms[1..][j - 1] == ms[j];
    }
  }

  // ------------------------------------------------ properties of Decode

  /** A decoded document is its `BI*` matches, each labelled from its first tag. */
  lemma DecodeView(tags: seq<string>)
    requires OneCharPrefixes(tags) && Decode(tags).Ok?
    ensures |Joined(tags)| == |tags|
    ensures |Decode(tags).value| == |BStarts(Joined(tags), 0)|
    ensures forall j | 0 <= j < |Decode(tags).value| ::
      Labellable(tags, Decode(tags).value[j].begin) &&
      Decode(tags).value[j] == Span(BStarts(Joined(tags), 0)[j].0, BStarts(Joined(tags), 0)[j].1,
                                    Split(tags[Decode(tags).value[j].begin], "-")[1])
  {
    JoinedFacts(tags);
    ScanIsBStarts(Joined(tags), 0);
    LabelledFacts(tags, BStarts(Joined(tags), 0));
  }

  predicate HasDash(t: string) {
    '-' in t
  }

  /**
   * Decoding fails (with an index error) exactly when some `B` of the joined
   * prefix string has no tag at its position with a `-`; with one-letter
   * prefixes, exactly when some `B` tag has no `-`.
   */
  lemma DecodeSucceeds(tags: seq<string>)
    ensures Decode(tags).Ok? <==>
      forall b | 0 <= b < |Joined(tags)| && Joined(tags)[b] == 'B' :: b < |tags| && HasDash(tags[b])
    ensures OneCharPrefixes(tags) ==>
      (Decode(tags).Ok? <==> forall b | 0 <= b < |tags| && Prefix(tags[b]) == "B" :: HasDash(tags[b]))
    ensures Decode(tags).Err? ==> Decode(tags).error == IndexError
  {
    var s := Joined(tags);
    ScanIsBStarts(s, 0);
    var ms := BStarts(s, 0);
    LabelledFacts(tags, ms);
    LabelledError(tags, ms);
    BStartsMatches(s, 0);
    if forall b | 0 <= b < |s| && s[b] == 'B' :: b < |tags| && HasDash(tags[b]) {
      forall j | 0 <= j < |ms| ensures Labellable(tags, ms[j].0) {
        SplitHasSecond(tags[ms[j].0]);
      }
    } else {
      var b :| 0 <= b < |s| && s[b] == 'B' && !(b < |tags| && HasDash(tags[b]));
      BStartsComplete(s, 0, b);
      var j :| 0 <= j < |ms| && ms[j].0 == b;
      if b < |tags| {
        SplitHasSecond(tags[b]);
      }
      assert !Labellable(tags, ms[j].0);
    }
    if OneCharPrefixes(tags) {
      JoinedFacts(tags);
      assert forall b | 0 <= b < |tags| :: Prefix(tags[b]) == "B" <==> s[b] == 'B';
    }
  }

  /**
   * Every decoded span starts at a `B`, continues over `I`s only, cannot be
   * extended by a further `I`, and carries the second `-`-piece of its first
   * tag as label.
   */
  lemma DecodeSpans(tags: seq<string>, j: nat)
    requires OneCharPrefixes(tags) && Decode(tags).Ok? && j < |Decode(tags).value|
    ensures var sp := Decode(tags).value[j];
      sp.begin < sp.end <= |tags| &&
      Prefix(tags[sp.begin]) == "B" &&
      (forall k | sp.begin < k < sp.end :: Prefix(tags[k]) == "I") &&
      (sp.end == |tags| || Prefix(tags[sp.end]) != "I") &&
      |Split(tags[sp.begin], "-")| >= 2 && sp.kind == Split(tags[sp.begin], "-")[1]
  {
    var s := Joined(tags);
    DecodeView(tags);
    JoinedFacts(tags);
    BStartsMatches(s, 0);
    var sp := Decode(tags).value[j];
    assert IsMatch(s, BStarts(s, 0)[j]);
    forall k | sp.begin < k < sp.end ensures Prefix(tags[k]) == "I" {
      assert Prefix(tags[k]) == [s[k]];
    }
  }

  /** Spans come in increasing order and never overlap. */
  lemma DecodeOrdered(tags: seq<string>)
    requires Decode(tags).Ok?
    ensures forall j, j' | 0 <= j < j' < |Decode(tags).value| ::
      Decode(tags).value[j].end <= Decode(tags).value[j'].begin
  {
    ScanIsBStarts(Joined(tags), 0);
    BStartsDisjoint(Joined(tags));
    LabelledFacts(tags, BStarts(Joined(tags), 0));
  }

  /** Every `B` of the joined prefix string starts exactly one span. */
  lemma DecodeEveryB(tags: seq<string>, b: nat)
    requires Decode(tags).Ok?
    requires b < |Joined(tags)| && Joined(tags)[b] == 'B'
    ensures exists j :: 0 <= j < |Decode(tags).value| && Decode(tags).value[j].begin == b
    ensures forall j, j' | 0 <= j < |Decode(tags).value| && 0 <= j' < |Decode(tags).value| &&
      Decode(tags).value[j].begin == b && Decode(tags).value[j'].begin == b :: j == j'
  {
    var s := Joined(tags);
    ScanIsBStarts(s, 0);
    var ms := BStarts(s, 0);
    LabelledFacts(tags, ms);
    BStartsComplete(s, 0, b);
    BStartsIncreasing(s, 0);
    var j :| 0 <= j < |ms| && ms[j].0 == b;
    assert Decode(tags).value[j].begin == b;
  }

  /** The token prefixes from `q + 1` to `p` are all `I`. */
  predicate IRunTags(tags: seq<string>, q: nat, p: nat)
    requires q <= p < |tags|
  {
    forall k | q < k <= p :: Prefix(tags[k]) == "I"
  }

  /** Spans with distinct contents (the model of a Python set of spans). */
  predicate NoDup(xs: seq<Span>) {
    forall i, j | 0 <= i < j < |xs| :: xs[i] != xs[j]
  }

  /** Whatever the tags, spans start at strictly increasing positions, so none repeats. */
  lemma DecodeDistinct(tags: seq<string>)
    requires Decode(tags).Ok?
    ensures forall j, j' | 0 <= j < j' < |Decode(tags).value| ::
      Decode(tags).value[j].begin < Decode(tags).value[j'].begin
    ensures NoDup(Decode(tags).value)
  {
    ScanIsBStarts(Joined(tags), 0);
    BStartsIncreasing(Joined(tags), 0);
    LabelledFacts(tags, BStarts(Joined(tags), 0));
  }

  /** A token lies in some span iff a `B` at or before it is followed by `I`s only up to it. */
  lemma DecodeCover(tags: seq<string>, p: nat)
    requires OneCharPrefixes(tags) && Decode(tags).Ok? && p < |tags|
    ensures (exists j :: 0 <= j < |Decode(tags).value| &&
               Decode(tags).value[j].begin <= p < Decode(tags).value[j].end) <==>
            (exists q :: 0 <= q <= p && Prefix(tags[q]) == "B" && IRunTags(tags, q, p))
  {
    var s := Joined(tags);
    DecodeView(tags);
    JoinedFacts(tags);
    BStartsCover(s, p);
    forall q | 0 <= q <= p ensures IRunTags(tags, q, p) <==> IRun(s, q, p) {
    }
  }

  /**
   * An `I` of the joined prefix string at its start, or after a letter that
   * is neither `B` nor `I`, lies in no span.
   */
  lemma LoneIOutside(tags: seq<string>, p: nat)
    requires Decode(tags).Ok? && p < |Joined(tags)| && Joined(tags)[p] == 'I'
    requires p == 0 || (Joined(tags)[p - 1] != 'B' && Joined(tags)[p - 1] != 'I')
    ensures forall j | 0 <= j < |Decode(tags).value| ::
      !(Decode(tags).value[j].begin <= p < Decode(tags).value[j].end)
  {
    var s := Joined(tags);
    ScanIsBStarts(s, 0);
    LabelledFacts(tags, BStarts(s, 0));
    BStartsCover(s, p);
    forall q | 0 <= q <= p && s[q] == 'B' ensures !IRun(s, q, p) {
      assert q != p && q != p - 1;
      assert s[p - 1] != 'I';
    }
  }

  /** An empty document decodes to no spans. */
  lemma DecodeEmpty(docs: seq<seq<string>>, d: nat)
    requires d < |docs| && docs[d] == [] && DecodeAll(docs).Ok?
    ensures DecodeAll(docs).value[d] == []
  {
    assert Scan(Joined([]), 0) == [];
  }

  // ------------------------------------------------------ majority vote

  /**
   * `r` is what `Counter(ls).most_common(1)[0][0]` returns: a label of `ls`
   * with maximal count whose first occurrence comes no later than that of
   * any other label with the same count.
   */
  ghost predicate IsVote(ls: seq<string>, r: string) {
    r in ls &&
    (forall y :: multiset(ls)[y] <= multiset(ls)[r]) &&
    (forall j | 0 <= j < |ls| && multiset(ls)[ls[j]] == multiset(ls)[r] :: FirstIndex(ls, r) <= j)
  }

  /** At most one label is the vote. */
  lemma VoteUnique(ls: seq<string>, a: string, b: string)
    requires IsVote(ls, a) && IsVote(ls, b)
    ensures a == b
  {
    var ja := FirstIndex(ls, a);
    var jb := FirstIndex(ls, b);
    assert multiset(ls)[ls[jb]] == multiset(ls)[a];
    assert multiset(ls)[ls[ja]] == multiset(ls)[b];
  }

  function FirstIndex(ls: seq<string>, x: string): (j: nat)
    requires x in ls
    ensures j < |ls| && ls[j] == x && forall i | 0 <= i < j :: ls[i] != x
  {
    if ls[0] == x then 0 else
      assert x in ls[1..];
      var j := FirstIndex(ls[1..], x);
      assert forall i | 1 <= i <= j :: ls[i] == ls[1..][i - 1];
      j + 1
  }

  /** `Counter(ls).most_common(1)[0][0]`, or an index error when `ls` is empty. */
  method Vote(ls: seq<string>) returns (r: Result<string>)
    ensures ls == [] <==> r.Err?
    ensures r.Err? ==> r.error == IndexError
    ensures r.Ok? ==> IsVote(ls, r.value)
  {
    var counts: Counter := [];
    for i := 0 to |ls|
      invariant counts == Tally(ls[..i])
    {
      assert ls[..i + 1][..i] == ls[..i];
      counts := Inc(counts, ls[i], 1);
    }
    assert ls[..|ls|] == ls;
    assert counts == Tally(ls);
    TallyFacts(ls);
    if counts == [] {
      assert |ls| == Sum(counts) == 0;
      return Err(IndexError);
    }
    var best := MostCommon(counts);
    VoteIsVote(ls, best);
    assert ls != [];
    r := Ok(counts[best].0);
  }

  /** `most_common(1)` on a non-empty counter: the position of the first item with the largest count. */
  method MostCommon(counts: Counter) returns (best: nat)
    requires counts != []
    ensures best < |counts|
    ensures forall q | 0 <= q < |counts| :: counts[q].1 <= counts[best].1
    ensures forall q | 0 <= q < best :: counts[q].1 < counts[best].1
  {
    best := 0;
    for i := 1 to |counts|
      invariant 0 <= best < i
      invariant forall q | 0 <= q < i :: counts[q].1 <= counts[best].1
      invariant forall q | 0 <= q < best :: counts[q].1 < counts[best].1
    {
      if counts[i].1 > counts[best].1 {
        best := i;
      }
    }
  }

  lemma VoteIsVote(ls: seq<string>, best: nat)
    requires best < |Tally(ls)|
    requires forall q | 0 <= q < |Tally(ls)| :: Tally(ls)[q].1 <= Tally(ls)[best].1
    requires forall q | 0 <= q < best :: Tally(ls)[q].1 < Tally(ls)[best].1
    ensures IsVote(ls, Tally(ls)[best].0)
  {
    var r := Tally(ls)[best].0;
    TallyFacts(ls);
    assert r in Keys(Tally(ls));
    VoteMost(ls, best);
    forall j | 0 <= j < |ls| && multiset(ls)[ls[j]] == multiset(ls)[r] ensures FirstIndex(ls, r) <= j {
      VoteFirst(ls, best, j);
    }
  }

  lemma VoteMost(ls: seq<string>, best: nat)
    requires best < |Tally(ls)|
    requires forall q | 0 <= q < |Tally(ls)| :: Tally(ls)[q].1 <= Tally(ls)[best].1
    ensures forall y :: multiset(ls)[y] <= multiset(ls)[Tally(ls)[best].0]
  {
    var c := Tally(ls);
    TallyFacts(ls);
    GetAt(c, best);
    forall y ensures multiset(ls)[y] <= multiset(ls)[c[best].0] {
      if y in Keys(c) {
        var q :| 0 <= q < |c| && c[q].0 == y;
        GetAt(c, q);
      } else {
        GetAbsent(c, y);
      }
    }
  }

  lemma VoteFirst(ls: seq<string>, best: nat, j: nat)
    requires best < |Tally(ls)| && Tally(ls)[best].0 in ls
    requires forall q | 0 <= q < best :: Tally(ls)[q].1 < Tally(ls)[best].1
    requires j < |ls| && multiset(ls)[ls[j]] == multiset(ls)[Tally(ls)[best].0]
    ensures FirstIndex(ls, Tally(ls)[best].0) <= j
  {
    var c := Tally(ls);
    TallyFacts(ls);
    var q := SeenBy(ls, j);
    GetAt(c, q);
    GetAt(c, best);
    assert best <= q;
    SeenBefore(ls, j, best);
  }

  /** The key of `ls[j]` sits among the keys counted by `ls[..j + 1]`. */
  lemma SeenBy(ls: seq<string>, j: nat) returns (q: nat)
    requires j < |ls|
    ensures q < |Tally(ls[..j + 1])| <= |Tally(ls)| && Tally(ls)[q].0 == ls[j]
  {
    var pre := ls[..j + 1];
    TallyFacts(pre);
    TallyPrefix(ls, j + 1);
    var p := Tally(pre);
    assert ls[j] in pre;
    q :| 0 <= q < |p| && p[q].0 == ls[j];
    assert KeySeq(p)[q] == KeySeq(Tally(ls))[q];
  }

  /** A key counted by `ls[..j + 1]` occurs first at or before `j`. */
  lemma SeenBefore(ls: seq<string>, j: nat, m: nat)
    requires j < |ls| && m < |Tally(ls[..j + 1])|
    ensures m < |Tally(ls)| && Tally(ls)[m].0 in ls && FirstIndex(ls, Tally(ls)[m].0) <= j
  {
    var pre := ls[..j + 1];
    TallyFacts(pre);
    TallyPrefix(ls, j + 1);
    var p := Tally(pre);
    assert KeySeq(p)[m] == KeySeq(Tally(ls))[m];
    var r := p[m].0;
    assert r in Keys(p);
    var i :| 0 <= i < |pre| && pre[i] == r;
    assert ls[i] == r;
  }

  /**
   * The vote for every `x` in `1 .. len(pred[0]) - 1`: row `x - 1` holds, for
   * each item, the vote among its first `x` neighbours. The scoring of each
   * row against the true labels is not part of the model.
   */
  method EvaluateK(pred: seq<seq<string>>) returns (r: Result<seq<seq<string>>>)
    ensures r.Err? <==> pred == [] || (|pred[0]| >= 2 && exists j :: 0 <= j < |pred| && pred[j] == [])
    ensures r.Err? ==> r.error == IndexError
    ensures r.Ok? ==> |r.value| == |pred[0]| - 1 || (|pred[0]| == 0 && r.value == [])
    ensures r.Ok? ==> forall x | 0 <= x < |r.value| :: VotesOf(pred, x + 1, r.value[x])
  {
    if pred == [] {
      return Err(IndexError);
    }
    var s: seq<seq<string>> := [];
    var x := 1;
    while x < |pred[0]|
      invariant 1 <= x && (x <= |pred[0]| || x == 1)
      invariant |s| == x - 1
      invariant forall t | 0 <= t < |s| :: VotesOf(pred, t + 1, s[t])
      invariant x >= 2 ==> forall j | 0 <= j < |pred| :: pred[j] != []
    {
      var row := VoteRow(pred, x);
      if row.Err? {
        return Err(IndexError);
      }
      s := s + [row.value];
      x := x + 1;
    }
    r := Ok(s);
  }

  /** `Slice(p, 0, x)` for `x >= 1` is empty exactly when `p` is. */
  lemma SliceFront(p: seq<string>, x: int)
    requires x >= 1
    ensures Slice(p, 0, x) == [] <==> p == []
  {
    if p != [] {
      assert Slice(p, 0, x) == p[..if x < |p| then x else |p|];
    }
  }

  /** The votes of all items among their first `x` neighbours. */
  /** `row` holds, for every item, the vote among its first `x` neighbours. */
  ghost predicate VotesOf(pred: seq<seq<string>>, x: nat, row: seq<string>) {
    |row| == |pred| && forall j | 0 <= j < |pred| :: IsVote(Slice(pred[j], 0, x), row[j])
  }

  method VoteRow(pred: seq<seq<string>>, x: nat) returns (r: Result<seq<string>>)
    requires x >= 1
    ensures r.Err? <==> exists j :: 0 <= j < |pred| && pred[j] == []
    ensures r.Err? ==> r.error == IndexError
    ensures r.Ok? ==> VotesOf(pred, x, r.value)
  {
    var p: seq<string> := [];
    for j := 0 to |pred|
      invariant |p| == j
      invariant forall i | 0 <= i < j :: pred[i] != [] && IsVote(Slice(pred[i], 0, x), p[i])
    {
      var v := Vote(Slice(pred[j], 0, x));
      SliceFront(pred[j], x);
      if v.Err? {
        return Err(IndexError);
      }
      p := p + [v.value];
    }
    r := Ok(p);
  }

  // ------------------------------------------------------------ to_conll

  /** The CoNLL line for token `i`: two placeholder columns, the gold tag, the predicted tag. */
  function ConllLine(g: string, p: string): string {
    "_ _ " + g + " " + p
  }

  /** The text `to_conll` writes: one line per token pair, each ended by a newline. */
  method ToConll(pred: seq<string>, gold: seq<string>) returns (r: Result<string>)
    ensures |pred| != |gold| <==> r == Err(AssertionError)
    // every line is followed by a newline, the last one included
    ensures r.Ok? ==> r.value == Join(seq(|gold|, i requires 0 <= i < |gold| => ConllLine(gold[i], pred[i])) + [""], "\n")
    ensures r.Ok? ==>
      (forall i | 0 <= i < |gold| :: '\n' !in gold[i] + pred[i]) ==>
        Split(r.value, "\n") == seq(|gold|, i requires 0 <= i < |gold| => ConllLine(gold[i], pred[i])) + [""]
  {
    if |pred| != |gold| {
      return Err(AssertionError);
    }
    var out := "";
    for i := 0 to |gold|
      invariant out == Join(seq(i, k requires 0 <= k < i => ConllLine(gold[k], pred[k])) + [""], "\n")
    {
      ghost var lines := seq(i, k requires 0 <= k < i => ConllLine(gold[k], pred[k]));
      JoinAppend(lines, ConllLine(gold[i], pred[i]));
      assert seq(i + 1, k requires 0 <= k < i + 1 => ConllLine(gold[k], pred[k])) == lines + [ConllLine(gold[i], pred[i])];
      out := out + ConllLine(gold[i], pred[i]) + "\n";
    }
    ghost var lines := seq(|gold|, i requires 0 <= i < |gold| => ConllLine(gold[i], pred[i]));
    if forall i | 0 <= i < |gold| :: '\n' !in gold[i] + pred[i] {
      forall k | 0 <= k < |lines + [""]| ensures '\n' !in (lines + [""])[k] {
        if k < |lines| {
          assert '\n' !in gold[k] + pred[k];
          assert lines[k] == "_ _ " + (gold[k] + (" " + pred[k]));
        }
      }
      SplitJoin(lines + [""], '\n');
    }
    r := Ok(out);
  }

  /** Terminating one more line extends the newline-joined text by that line and a newline. */
  lemma {:induction false} JoinAppend(lines: seq<string>, l: string)
    ensures Join(lines + [l] + [""], "\n") == Join(lines + [""], "\n") + l + "\n"
  {
    if lines == [] {
      assert [l] + [""] == [l, ""];
    } else {
      JoinAppend(lines[1..], l);
      assert (lines + [l] + [""])[1..] == lines[1..] + [l] + [""];
      assert (lines + [""])[1..] == lines[1..] + [""];
    }
  }
}
