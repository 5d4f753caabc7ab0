/**
 * The BIO rebuilding of the extrinsic evaluation
 * (conch/evaluation/extrinsic.py): every decoded chunk of a phrase BIO
 * sequence receives a label, and the chunks not labelled `"np"` are written
 * back as `B-label I-label ...` over a sequence of `"O"`s.
 */
module Extrinsic {
  import opened Results
  import opened PyText
  import opened Utils

  // ------------------------------------------------------ specification

  /** The chunks that are written: those whose label is not `"np"`, carrying that label. */
  function KeptChunks(spans: seq<Span>, labels: seq<string>): (r: seq<Span>)
    requires |spans| == |labels|
    ensures |r| <= |spans|
  {
    if spans == [] then []
    else
      var n := |spans| - 1;
      KeptChunks(spans[..n], labels[..n])
      + (if labels[n] != "np" then [Span(spans[n].begin, spans[n].end, labels[n])] else [])
  }

  /** Every kept chunk is a decoded chunk with a label other than `"np"`, in the same order. */
  lemma {:induction false} KeptSource(spans: seq<Span>, labels: seq<string>, m: nat) returns (j: nat)
    requires |spans| == |labels| && m < |KeptChunks(spans, labels)|
    ensures j < |spans| && labels[j] != "np"
    ensures KeptChunks(spans, labels)[m] == Span(spans[j].begin, spans[j].end, labels[j])
  {
    var n := |spans| - 1;
    var rest := KeptChunks(spans[..n], labels[..n]);
    if m < |rest| {
      j := KeptSource(spans[..n], labels[..n], m);
    } else {
      j := n;
    }
  }

  /** Every chunk whose label is not `"np"` is kept. */
  lemma {:induction false} KeptIndex(spans: seq<Span>, labels: seq<string>, j: nat) returns (m: nat)
    requires |spans| == |labels| && j < |spans| && labels[j] != "np"
    ensures m < |KeptChunks(spans, labels)|
    ensures KeptChunks(spans, labels)[m] == Span(spans[j].begin, spans[j].end, labels[j])
  {
    var n := |spans| - 1;
    var rest := KeptChunks(spans[..n], labels[..n]);
    if j < n {
      m := KeptIndex(spans[..n], labels[..n], j);
    } else {
      m := |rest|;
    }
  }

  /** Chunk `c` written over `bio`: `B-label` at its first token, `I-label` over the others. */
  function Write(bio: seq<string>, c: Span): (r: seq<string>)
    requires c.begin < c.end <= |bio|
    ensures |r| == |bio|
  {
    seq(|bio|, i requires 0 <= i < |bio| =>
      if i == c.begin then "B-" + c.kind else if c.begin < i < c.end then "I-" + c.kind else bio[i])
  }

  /**
   * `n` tags `"O"` with the chunks `ks` written over them in order; a write
   * past the end raises an index error. A chunk with `end <= begin` writes
   * nothing.
   */
  function Paint(n: nat, ks: seq<Span>): (r: Result<seq<string>>)
    ensures r.Ok? ==> |r.value| == n
    ensures r.Ok? <==> forall m | 0 <= m < |ks| :: ks[m].begin < ks[m].end ==> ks[m].end <= n
    ensures r.Err? ==> r.error == IndexError
  {
    if ks == [] then Ok(seq(n, _ => "O"))
    else
      var c := ks[|ks| - 1];
      var prev := Paint(n, ks[..|ks| - 1]);
      assert forall m | 0 <= m < |ks| - 1 :: ks[..|ks| - 1][m] == ks[m];
      if prev.Err? then prev
      else if c.end <= c.begin then prev
      else if n < c.end then Err(IndexError)
      else Ok(Write(prev.value, c))
  }

  // ---------------------------------------------------------- the method

  /**
   * The inner loop of `eval_extrinsic` for one chunk: `B-label` at `begin`,
   * `I-label` at the following positions up to `end`; false when a write
   * falls past the end of the array (Python's index error).
   */
  method WriteChunk(a: array<string>, c: Span) returns (ok: bool)
    modifies a
    ensures ok <==> c.end <= c.begin || c.end <= a.Length
    ensures ok && c.begin < c.end ==> a[..] == Write(old(a[..]), c)
    ensures ok && c.end <= c.begin ==> a[..] == old(a[..])
  {
    if c.end <= c.begin {
      return true;
    }
    for idx := 0 to c.end - c.begin
      invariant idx == 0 || c.begin + idx <= a.Length
      invariant forall i | 0 <= i < a.Length ::
        a[i] == if c.begin <= i < c.begin + idx then (if i == c.begin then "B-" else "I-") + c.kind else old(a[i])
    {
      if c.begin + idx >= a.Length {
        return false;
      }
      if idx == 0 {
        a[c.begin] := "B-" + c.kind;
      } else {
        a[c.begin + idx] := "I-" + c.kind;
      }
    }
    return true;
  }

  /**
   * `eval_extrinsic` from the chunk labels on: decode the chunks, check
   * that there is one label per chunk, and rebuild the BIO sequence.
   */
  method EvalExtrinsic(chunkBio: seq<string>, results: seq<string>) returns (r: Result<seq<string>>)
    ensures Decode(chunkBio).Err? ==> r == Err(IndexError)
    ensures Decode(chunkBio).Ok? && |results| != |Decode(chunkBio).value| ==> r == Err(AssertionError)
    ensures Decode(chunkBio).Ok? && |results| == |Decode(chunkBio).value| ==>
      r == Paint(|chunkBio|, KeptChunks(Decode(chunkBio).value, results))
  {
    var decoded := Decode(chunkBio);
    if decoded.Err? {
      LabelledError(chunkBio, Scan(Joined(chunkBio), 0));
      return Err(decoded.error);
    }
    var chunkIndices := decoded.value;
    if |results| != |chunkIndices| {
      return Err(AssertionError);
    }
    r := Rebuild(|chunkBio|, chunkIndices, results);
  }

  /**
   * The rebuilding loop: `n` tags `"O"`, then every chunk not labelled
   * `"np"` written over them in order.
   */
  method Rebuild(n: nat, chunkIndices: seq<Span>, results: seq<string>) returns (r: Result<seq<string>>)
    requires |results| == |chunkIndices|
    ensures r == Paint(n, KeptChunks(chunkIndices, results))
  {
    var newBio := new string[n](_ => "O");
    assert newBio[..] == seq(n, _ => "O");
    for j := 0 to |chunkIndices|
      invariant Paint(n, KeptChunks(chunkIndices[..j], results[..j])) == Ok(newBio[..])
    {
      ghost var cells := newBio[..];
      var kind := results[j];
      if kind == "np" {
        RebuildStep(n, chunkIndices, results, j, cells, cells);
        continue;
      }
      var c := Span(chunkIndices[j].begin, chunkIndices[j].end, kind);
      var ok := WriteChunk(newBio, c);
      if !ok {
        ghost var m := KeptIndex(chunkIndices, results, j);
        return Err(IndexError);
      }
      RebuildStep(n, chunkIndices, results, j, cells, newBio[..]);
    }
    assert chunkIndices[..|chunkIndices|] == chunkIndices && results[..|results|] == results;
    return Ok(newBio[..]);
  }

  lemma KeptStep(spans: seq<Span>, labels: seq<string>, j: nat)
    requires |spans| == |labels| && j < |spans|
    ensures labels[j] == "np" ==> KeptChunks(spans[..j + 1], labels[..j + 1]) == KeptChunks(spans[..j], labels[..j])
    ensures labels[j] != "np" ==>
      KeptChunks(spans[..j + 1], labels[..j + 1]) ==
      KeptChunks(spans[..j], labels[..j]) + [Span(spans[j].begin, spans[j].end, labels[j])]
  {
    assert spans[..j + 1][..j] == spans[..j] && labels[..j + 1][..j] == labels[..j];
  }

  /** One pass of `rebuild`'s loop: skipping an `np` label or writing chunk `j` paints one more kept chunk. */
  lemma RebuildStep(n: nat, spans: seq<Span>, labels: seq<string>, j: nat, cells: seq<string>, cells': seq<string>)
    requires |spans| == |labels| && j < |spans|
    requires Paint(n, KeptChunks(spans[..j], labels[..j])) == Ok(cells)
    requires labels[j] == "np" || spans[j].end <= spans[j].begin ==> cells' == cells
    requires labels[j] != "np" && spans[j].begin < spans[j].end ==>
      spans[j].end <= n && cells' == Write(cells, Span(spans[j].begin, spans[j].end, labels[j]))
    ensures Paint(n, KeptChunks(spans[..j + 1], labels[..j + 1])) == Ok(cells')
  {
    KeptStep(spans, labels, j);
    if labels[j] != "np" {
      PaintStep(n, KeptChunks(spans[..j], labels[..j]), Span(spans[j].begin, spans[j].end, labels[j]));
    }
  }

  lemma PaintStep(n: nat, ks: seq<Span>, c: Span)
    ensures Paint(n, ks + [c]) ==
      if Paint(n, ks).Err? || c.end <= c.begin then Paint(n, ks)
      else if n < c.end then Err(IndexError)
      else Ok(Write(Paint(n, ks).value, c))
  {
    assert (ks + [c])[..|ks|] == ks;
  }

  // --------------------------------------------------------- the cells

  /** Chunks inside `0 .. n`, non-empty, each ending at or before the next begins. */
  predicate WellPlaced(ks: seq<Span>, n: nat) {
    (forall m | 0 <= m < |ks| :: ks[m].begin < ks[m].end <= n) &&
    (forall m, m' | 0 <= m < m' < |ks| :: ks[m].end <= ks[m'].begin)
  }

  predicate Uncovered(ks: seq<Span>, i: int) {
    forall m | 0 <= m < |ks| :: !(ks[m].begin <= i < ks[m].end)
  }

  /** What `out` holds once the chunks `ks` are written over `"O"`s. */
  predicate Painted(out: seq<string>, ks: seq<Span>, n: nat) {
    |out| == n &&
    (forall m, i | 0 <= m < |ks| && ks[m].begin <= i < ks[m].end && 0 <= i < n ::
      out[i] == (if i == ks[m].begin then "B-" else "I-") + ks[m].kind) &&
    (forall i | 0 <= i < n && Uncovered(ks, i) :: out[i] == "O")
  }

  /** Well-placed chunks are painted without error, each over its own positions. */
  lemma {:induction false} PaintCells(n: nat, ks: seq<Span>)
    requires WellPlaced(ks, n)
    ensures Paint(n, ks).Ok? && Painted(Paint(n, ks).value, ks, n)
  {
    if ks != [] {
      var k := |ks| - 1;
      var rest := ks[..k];
      assert ks == rest + [ks[k]];
      assert forall m | 0 <= m < k :: rest[m] == ks[m];
      PaintCells(n, rest);
      assert Paint(n, ks).value == Write(Paint(n, rest).value, ks[k]);
      assert ks[k].begin < ks[k].end <= n;
      PaintedSnoc(Paint(n, rest).value, rest, ks[k], n);
    }
  }

  /** Writing one more well-placed chunk keeps the picture `Painted` describes. */
  lemma PaintedSnoc(prev: seq<string>, rest: seq<Span>, c: Span, n: nat)
    requires WellPlaced(rest + [c], n) && c.begin < c.end <= n && Painted(prev, rest, n)
    ensures Painted(Write(prev, c), rest + [c], n)
  {
    var ks := rest + [c];
    var out := Write(prev, c);
    assert ks[|rest|] == c;
    assert forall m | 0 <= m < |rest| :: ks[m] == rest[m];
    forall m, i | 0 <= m < |ks| && ks[m].begin <= i < ks[m].end && 0 <= i < n
      ensures out[i] == (if i == ks[m].begin then "B-" else "I-") + ks[m].kind
    {
      if m < |rest| {
        assert ks[m].end <= ks[|rest|].begin;
      }
    }
    forall i | 0 <= i < n && Uncovered(ks, i) ensures out[i] == "O" {
      assert Uncovered(rest, i);
    }
  }

  // ----------------------------------------------------------- round trip

  function Pairs(ks: seq<Span>): (r: seq<(nat, nat)>)
    ensures |r| == |ks| && forall m | 0 <= m < |ks| :: r[m] == (ks[m].begin, ks[m].end)
  {
    seq(|ks|, m requires 0 <= m < |ks| => (ks[m].begin, ks[m].end))
  }

  predicate Increasing(a: seq<(nat, nat)>) {
    forall j, j' | 0 <= j < j' < |a| :: a[j].0 < a[j'].0
  }

  /** Two sequences ordered by strictly increasing first components and with the same elements are equal. */
  lemma {:induction false} IncreasingEq(a: seq<(nat, nat)>, b: seq<(nat, nat)>)
    requires Increasing(a) && Increasing(b)
    requires forall x :: x in a <==> x in b
    ensures a == b
    decreases |a|
  {
    assert b != [] ==> b[0] in b;
    if a != [] {
      assert a[0] in a && a[0] in b;
      assert b[0] in b && b[0] in a;
      var k :| 0 <= k < |b| && b[k] == a[0];
      var k' :| 0 <= k' < |a| && a[k'] == b[0];
      assert a[0] == b[0];
      forall x ensures x in a[1..] <==> x in b[1..] {
        assert x in a[1..] <==> x in a && x != a[0];
        assert x in b[1..] <==> x in b && x != b[0];
      }
      IncreasingEq(a[1..], b[1..]);
      assert a == [a[0]] + a[1..] && b == [b[0]] + b[1..];
    }
  }

  lemma {:induction false} RunEndAt(s: string, j: nat, e: nat)
    requires j <= e <= |s|
    requires forall k | j <= k < e :: s[k] == 'I'
    requires e == |s| || s[e] != 'I'
    ensures RunEnd(s, j) == e
    decreases e - j
  {
    if j < e {
      RunEndAt(s, j + 1, e);
    }
  }

  predicate IsBegin(ks: seq<Span>, p: int) {
    exists m | 0 <= m < |ks| :: ks[m].begin == p
  }

  predicate IsInside(ks: seq<Span>, p: int) {
    exists m | 0 <= m < |ks| :: ks[m].begin < p < ks[m].end
  }

  /** `s` has a `B` exactly at chunk starts and an `I` exactly inside chunks. */
  predicate Letters(s: string, ks: seq<Span>, n: nat) {
    |s| == n &&
    forall p | 0 <= p < n :: (s[p] == 'B' <==> IsBegin(ks, p)) && (s[p] == 'I' <==> IsInside(ks, p))
  }

  /** The tag prefixes of a painted sequence: `B` at chunk starts, `I` inside chunks, `O` elsewhere. */
  lemma PaintedLetters(out: seq<string>, ks: seq<Span>, n: nat)
    requires WellPlaced(ks, n) && Painted(out, ks, n)
    requires forall m | 0 <= m < |ks| :: '-' !in ks[m].kind
    ensures OneCharPrefixes(out)
    ensures forall p | 0 <= p < n :: Prefix(out[p]) == "B" <==> IsBegin(ks, p)
    ensures forall p | 0 <= p < n :: Prefix(out[p]) == "I" <==> IsInside(ks, p)
    ensures forall p | 0 <= p < n && Prefix(out[p]) == "B" :: HasDash(out[p])
  {
    forall p | 0 <= p < n
      ensures |Prefix(out[p])| == 1
      ensures Prefix(out[p]) == "B" <==> IsBegin(ks, p)
      ensures Prefix(out[p]) == "I" <==> IsInside(ks, p)
      ensures Prefix(out[p]) == "B" ==> HasDash(out[p])
    {
      if m :| 0 <= m < |ks| && ks[m].begin <= p < ks[m].end {
        var l := ks[m].kind;
        if p == ks[m].begin {
          TagPieces('B', l);
          assert out[p] == ['B', '-'] + l;
          assert out[p][1] == '-';
        } else {
          TagPieces('I', l);
          assert out[p] == ['I', '-'] + l;
        }
      } else {
        assert Uncovered(ks, p);
        SplitNoSep("O", '-');
      }
    }
  }

  lemma JoinedLetters(out: seq<string>, ks: seq<Span>, n: nat)
    requires WellPlaced(ks, n) && Painted(out, ks, n)
    requires forall m | 0 <= m < |ks| :: '-' !in ks[m].kind
    ensures OneCharPrefixes(out) && Letters(Joined(out), ks, n)
    ensures forall p | 0 <= p < n && Prefix(out[p]) == "B" :: HasDash(out[p])
  {
    PaintedLetters(out, ks, n);
    JoinedFacts(out);
  }

  /** In such a string each chunk's run of `I`s ends exactly at the chunk's end. */
  lemma LettersRunEnd(s: string, ks: seq<Span>, n: nat, m: nat)
    requires WellPlaced(ks, n) && Letters(s, ks, n) && m < |ks|
    ensures RunEnd(s, ks[m].begin + 1) == ks[m].end
  {
    var e := ks[m].end;
    forall k | ks[m].begin < k < e ensures s[k] == 'I' {
      assert IsInside(ks, k);
    }
    assert e < n ==> !IsInside(ks, e);
    RunEndAt(s, ks[m].begin + 1, e);
  }

  lemma StartsAreChunks(s: string, ks: seq<Span>, n: nat)
    requires WellPlaced(ks, n) && Letters(s, ks, n)
    ensures forall x | x in BStarts(s, 0) :: x in Pairs(ks)
  {
    var ms := BStarts(s, 0);
    BStartsMatches(s, 0);
    forall x | x in ms ensures x in Pairs(ks) {
      var j :| 0 <= j < |ms| && ms[j] == x;
      MatchIsChunk(s, ks, n, x);
    }
  }

  lemma MatchIsChunk(s: string, ks: seq<Span>, n: nat, x: (nat, nat))
    requires WellPlaced(ks, n) && Letters(s, ks, n) && IsMatch(s, x)
    ensures x in Pairs(ks)
  {
    assert IsBegin(ks, x.0);
    var m :| 0 <= m < |ks| && ks[m].begin == x.0;
    LettersRunEnd(s, ks, n, m);
    assert Pairs(ks)[m] == x;
  }

  lemma ChunksAreStarts(s: string, ks: seq<Span>, n: nat)
    requires WellPlaced(ks, n) && Letters(s, ks, n)
    ensures forall x | x in Pairs(ks) :: x in BStarts(s, 0)
  {
    forall x | x in Pairs(ks) ensures x in BStarts(s, 0) {
      var m :| 0 <= m < |ks| && Pairs(ks)[m] == x;
      ChunkIsStart(s, ks, n, m);
    }
  }

  lemma ChunkIsStart(s: string, ks: seq<Span>, n: nat, m: nat)
    requires WellPlaced(ks, n) && Letters(s, ks, n) && m < |ks|
    ensures (ks[m].begin, ks[m].end) in BStarts(s, 0)
  {
    var ms := BStarts(s, 0);
    var p := ks[m].begin;
    assert IsBegin(ks, p);
    BStartsComplete(s, 0, p);
    var j :| 0 <= j < |ms| && ms[j].0 == p;
    BStartsMatches(s, 0);
    assert IsMatch(s, ms[j]);
    LettersRunEnd(s, ks, n, m);
    assert ms[j] == (p, ks[m].end);
  }

  /** ... so the `BI*` matches of such a string are exactly the chunks. */
  lemma LettersStarts(s: string, ks: seq<Span>, n: nat)
    requires WellPlaced(ks, n) && Letters(s, ks, n)
    ensures BStarts(s, 0) == Pairs(ks)
  {
    BStartsIncreasing(s, 0);
    StartsAreChunks(s, ks, n);
    ChunksAreStarts(s, ks, n);
    IncreasingEq(BStarts(s, 0), Pairs(ks));
  }

  /** Decoding a painted sequence gives back the chunks with their labels. */
  lemma RoundTrip(n: nat, ks: seq<Span>)
    requires WellPlaced(ks, n)
    requires forall m | 0 <= m < |ks| :: '-' !in ks[m].kind
    ensures Paint(n, ks).Ok?
    ensures OneCharPrefixes(Paint(n, ks).value)
    ensures Decode(Paint(n, ks).value) == Ok(ks)
  {
    PaintCells(n, ks);
    var out := Paint(n, ks).value;
    JoinedLetters(out, ks, n);
    LettersStarts(Joined(out), ks, n);
    DecodeSucceeds(out);
    DecodeView(out);
    var d := Decode(out).value;
    forall m | 0 <= m < |ks| ensures d[m] == ks[m] {
      TagPieces('B', ks[m].kind);
      assert out[ks[m].begin] == ['B', '-'] + ks[m].kind;
    }
    assert d == ks;
  }

  // ------------------------------------------------- on decoded chunks

  /** The kept chunks of well-placed chunks are well placed. */
  lemma {:induction false} KeptWellPlaced(spans: seq<Span>, labels: seq<string>, n: nat)
    requires |spans| == |labels| && WellPlaced(spans, n)
    ensures WellPlaced(KeptChunks(spans, labels), n)
  {
    var ks := KeptChunks(spans, labels);
    forall m | 0 <= m < |ks| ensures ks[m].begin < ks[m].end <= n {
      var j := KeptSource(spans, labels, m);
    }
    forall m, m' | 0 <= m < m' < |ks| ensures ks[m].end <= ks[m'].begin {
      var j := KeptSource(spans, labels, m);
      var j' := KeptSource(spans, labels, m');
      KeptOrder(spans, labels, m, m', j, j');
    }
  }

  /** Kept chunks keep their order. */
  lemma {:induction false} KeptOrder(spans: seq<Span>, labels: seq<string>, m: nat, m': nat, j: nat, j': nat)
    requires |spans| == |labels| && m < m' < |KeptChunks(spans, labels)|
    requires j < |spans| && j' < |spans| && labels[j] != "np" && labels[j'] != "np"
    requires KeptChunks(spans, labels)[m] == Span(spans[j].begin, spans[j].end, labels[j])
    requires KeptChunks(spans, labels)[m'] == Span(spans[j'].begin, spans[j'].end, labels[j'])
    requires forall i, i' | 0 <= i < i' < |spans| :: spans[i].begin < spans[i'].begin
    ensures j < j'
  {
    var n := |spans| - 1;
    var rest := KeptChunks(spans[..n], labels[..n]);
    assert forall i | 0 <= i < n :: spans[..n][i] == spans[i] && labels[..n][i] == labels[i];
    if m' < |rest| {
      var i := KeptSource(spans[..n], labels[..n], m);
      var i' := KeptSource(spans[..n], labels[..n], m');
      KeptOrder(spans[..n], labels[..n], m, m', i, i');
    } else {
      var i := KeptSource(spans[..n], labels[..n], m);
    }
  }

  /**
   * Decoded chunks are well placed in the joined prefix string, which has
   * one letter per tag when every prefix is one letter.
   */
  lemma DecodedWellPlaced(tags: seq<string>)
    requires Decode(tags).Ok?
    ensures WellPlaced(Decode(tags).value, |Joined(tags)|)
    ensures OneCharPrefixes(tags) ==> |Joined(tags)| == |tags|
  {
    var s := Joined(tags);
    ScanIsBStarts(s, 0);
    BStartsMatches(s, 0);
    LabelledFacts(tags, BStarts(s, 0));
    DecodeOrdered(tags);
    if OneCharPrefixes(tags) {
      JoinedFacts(tags);
    }
  }

  /**
   * On the chunks of a BIO sequence with one-character prefixes: the
   * rebuilt sequence has the input's length, every chunk not labelled
   * `"np"` is written as `B-label I-label ...`, and every other position
   * (those of `"np"` chunks included) stays `"O"`.
   */
  lemma ExtrinsicCells(chunkBio: seq<string>, results: seq<string>)
    requires OneCharPrefixes(chunkBio) && Decode(chunkBio).Ok? && |results| == |Decode(chunkBio).value|
    ensures var spans := Decode(chunkBio).value;
      var r := Paint(|chunkBio|, KeptChunks(spans, results));
      r.Ok? && |r.value| == |chunkBio| && WellPlaced(spans, |chunkBio|) &&
      (forall j, i | 0 <= j < |spans| && results[j] != "np" && spans[j].begin <= i < spans[j].end ::
        r.value[i] == (if i == spans[j].begin then "B-" else "I-") + results[j]) &&
      (forall i | 0 <= i < |chunkBio| &&
         (forall j | 0 <= j < |spans| && results[j] != "np" :: !(spans[j].begin <= i < spans[j].end)) ::
        r.value[i] == "O")
  {
    var spans := Decode(chunkBio).value;
    var n := |chunkBio|;
    DecodedWellPlaced(chunkBio);
    KeptWellPlaced(spans, results, n);
    var ks := KeptChunks(spans, results);
    PaintCells(n, ks);
    var out := Paint(n, ks).value;
    forall j, i | 0 <= j < |spans| && results[j] != "np" && spans[j].begin <= i < spans[j].end
      ensures out[i] == (if i == spans[j].begin then "B-" else "I-") + results[j]
    {
      var m := KeptIndex(spans, results, j);
    }
    forall i | 0 <= i < n && (forall j | 0 <= j < |spans| && results[j] != "np" :: !(spans[j].begin <= i < spans[j].end))
      ensures out[i] == "O"
    {
      forall m | 0 <= m < |ks| ensures !(ks[m].begin <= i < ks[m].end) {
        var j := KeptSource(spans, results, m);
      }
    }
  }

  /**
   * The round trip: when no label contains `-`, decoding the rebuilt
   * sequence gives exactly the chunks not labelled `"np"`, in order, with
   * their new labels.
   */
  lemma ExtrinsicRoundTrip(chunkBio: seq<string>, results: seq<string>)
    requires OneCharPrefixes(chunkBio) && Decode(chunkBio).Ok? && |results| == |Decode(chunkBio).value|
    requires forall j | 0 <= j < |results| :: '-' !in results[j]
    ensures var ks := KeptChunks(Decode(chunkBio).value, results);
      Paint(|chunkBio|, ks).Ok? && Decode(Paint(|chunkBio|, ks).value) == Ok(ks)
  {
    var spans := Decode(chunkBio).value;
    DecodedWellPlaced(chunkBio);
    KeptWellPlaced(spans, results, |chunkBio|);
    var ks := KeptChunks(spans, results);
    forall m | 0 <= m < |ks| ensures '-' !in ks[m].kind {
      var j := KeptSource(spans, results, m);
    }
    RoundTrip(|chunkBio|, ks);
  }
}
