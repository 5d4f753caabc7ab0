/**
 * The sentence table and the NP-chunk placement of the cTAKES preprocessing
 * step (`conch/preprocessing/ctakes.py`). `get_sentences` cuts a document's
 * text into one entry per non-empty line, keyed by the offset just past the
 * line; `get_chunks` hands every `NP` chunk annotation to the first sentence
 * whose key lies beyond the chunk's begin, and then writes `B-NP` / `I-NP`
 * over the whitespace tokens each chunk covers.
 *
 * The `OrderedDict` of sentences is a sequence in key order: the key of an
 * entry is its `end` field, and keys strictly increase (`SentencesKeys`),
 * so every insertion of `get_sentences` adds a new key at the end.
 */
module Ctakes {
  import opened Results
  import opened PyText

  /** A `syntax:Chunk` annotation: its `chunkType`, `begin` and `end` attributes. */
  datatype Annotation = Annotation(kind: string, begin: int, end: int)

  /** A chunk handed to a sentence: `(begin, end, text[begin:end], chunk_type)`. */
  datatype Chunk = Chunk(begin: int, end: int, tokens: string, kind: string)

  /** A sentence entry `(prev, position, text[prev:position-1], chunks)`; its key is `end`. */
  datatype Sentence = Sentence(begin: int, end: int, text: string, chunks: seq<Chunk>)

  // ------------------------------------------------------------ get_sentences

  /** The non-empty lines, in order. */
  function NonEmpty(lines: seq<string>): (r: seq<string>)
    ensures |r| <= |lines|
    ensures forall i | 0 <= i < |r| :: r[i] != []
  {
    if lines == [] then []
    else
      var prev := NonEmpty(lines[..|lines| - 1]);
      if lines[|lines| - 1] == [] then prev else prev + [lines[|lines| - 1]]
  }

  /** The value of `prev` after the loop of `get_sentences` has seen `lines`. */
  function Offset(lines: seq<string>): nat {
    if lines == [] then 0
    else
      var line := lines[|lines| - 1];
      Offset(lines[..|lines| - 1]) + if line == [] then 0 else |line| + 1
  }

  /** The entries `get_sentences` makes for `lines`, the leading lines of `text`. */
  function SentencesOf(text: string, lines: seq<string>): seq<Sentence> {
    if lines == [] then []
    else
      var prev := SentencesOf(text, lines[..|lines| - 1]);
      var line := lines[|lines| - 1];
      if line == [] then prev
      else
        var begin := Offset(lines[..|lines| - 1]);
        var key := begin + |line| + 1;
        prev + [Sentence(begin, key, Slice(text, begin, key - 1), [])]
  }

  /** `get_sentences(text)`, in key order. */
  function Sentences(text: string): seq<Sentence> {
    SentencesOf(text, Split(text, "\n"))
  }

  method GetSentences(text: string) returns (sentences: seq<Sentence>)
    ensures sentences == Sentences(text)
  {
    var lines := Split(text, "\n");
    sentences := [];
    var prev := 0;
    for i := 0 to |lines|
      invariant sentences == SentencesOf(text, lines[..i]) && prev == Offset(lines[..i])
    {
      assert lines[..i + 1][..i] == lines[..i];
      var line := lines[i];
      if line == [] {
        continue;
      }
      var position := prev + |line| + 1;
      sentences := sentences + [Sentence(prev, position, Slice(text, prev, position - 1), [])];
      prev := position;
    }
    assert lines[..|lines|] == lines;
  }

  /**
   * One entry per non-empty line, in order and with no chunks yet; each spans
   * its line plus the line break.
   */
  lemma {:induction false} SentencesLines(text: string, lines: seq<string>)
    ensures var ss := SentencesOf(text, lines);
      && |ss| == |NonEmpty(lines)|
      && forall i | 0 <= i < |ss| :: ss[i].end == ss[i].begin + |NonEmpty(lines)[i]| + 1 && ss[i].chunks == []
    decreases |lines|
  {
    if lines != [] {
      SentencesLines(text, lines[..|lines| - 1]);
    }
  }

  /**
   * The first entry starts at 0, each further one at its predecessor's key,
   * and the last key is the final `prev`.
   */
  lemma {:induction false} SentencesChain(text: string, lines: seq<string>)
    ensures var ss := SentencesOf(text, lines);
      && (ss == [] ==> Offset(lines) == 0)
      && (ss != [] ==> ss[0].begin == 0 && ss[|ss| - 1].end == Offset(lines))
      && forall i | 0 < i < |ss| :: ss[i].begin == ss[i - 1].end
    decreases |lines|
  {
    if lines != [] {
      SentencesChain(text, lines[..|lines| - 1]);
    }
  }

  /** Every key is at most `bound`. */
  predicate KeysBelow(ss: seq<Sentence>, bound: int) {
    forall i | 0 <= i < |ss| :: ss[i].end <= bound
  }

  /** The keys strictly increase, so no two entries share a key. */
  predicate KeysIncrease(ss: seq<Sentence>) {
    forall i, j | 0 <= i < j < |ss| :: ss[i].end < ss[j].end
  }

  /** The keys strictly increase and none exceeds the final `prev`. */
  lemma {:induction false} SentencesKeys(text: string, lines: seq<string>)
    ensures KeysIncrease(SentencesOf(text, lines)) && KeysBelow(SentencesOf(text, lines), Offset(lines))
    decreases |lines|
  {
    if lines != [] {
      var n := |lines| - 1;
      SentencesKeys(text, lines[..n]);
      var prev := SentencesOf(text, lines[..n]);
      var ss := SentencesOf(text, lines);
      if lines[n] != [] {
        assert ss == prev + [ss[|prev|]];
        assert ss[|prev|].end == Offset(lines) > Offset(lines[..n]);
        assert forall i | 0 <= i < |prev| :: ss[i] == prev[i];
      } else {
        assert ss == prev && Offset(lines) == Offset(lines[..n]);
      }
    }
  }

  /** `get_sentences` with an empty line before the text: the first entry takes in the line break. */
  lemma EmptyLineShifts()
    ensures Sentences("\nab") == [Sentence(0, 3, "\na", [])]
  {
    SplitAt([], '\n', "ab");
    SplitNoSep("ab", '\n');
    assert Split("\nab", "\n") == ["", "ab"];
    var lines: seq<string> := ["", "ab"];
    assert lines[..1] == [""] && lines[..1][..0] == [];
    assert Offset(lines[..1]) == 0;
    assert SentencesOf("\nab", lines[..1]) == [];
    assert Slice("\nab", 0, 2) == "\na";
  }

  lemma {:induction false} OffsetJoin(lines: seq<string>)
    requires lines != [] && forall k | 0 <= k < |lines| :: lines[k] != []
    ensures Offset(lines) == |Join(lines, "\n")| + 1
    decreases |lines|
  {
    var n := |lines| - 1;
    if n > 0 {
      OffsetJoin(lines[..n]);
      assert lines[..n] + [lines[n]] == lines;
      JoinSnoc(lines[..n], lines[n], "\n");
    } else {
      assert lines == [lines[0]];
    }
  }

  /**
   * When no line but the last is empty, the sentence texts are exactly the
   * non-empty lines of `text`.
   */
  lemma {:induction false} SentencesAreLinesOf(text: string, lines: seq<string>)
    requires Join(lines, "\n") <= text
    requires forall k | 0 <= k < |lines| - 1 :: lines[k] != []
    ensures var ss := SentencesOf(text, lines);
      |ss| == |NonEmpty(lines)| && forall i | 0 <= i < |ss| :: ss[i].text == NonEmpty(lines)[i]
    decreases |lines|
  {
    if lines != [] {
      var n := |lines| - 1;
      var init, line := lines[..n], lines[n];
      assert init + [line] == lines;
      if n > 0 {
        JoinSnoc(init, line, "\n");
      }
      assert Join(init, "\n") <= text;
      SentencesAreLinesOf(text, init);
      if line != [] {
        var begin := Offset(init);
        var key := begin + |line| + 1;
        if n > 0 {
          OffsetJoin(init);
          assert begin == |Join(init, "\n")| + 1;
        }
        assert text[begin..key - 1] == line;
        assert Slice(text, begin, key - 1) == line;
      }
    }
  }

  /** No line of `text` is empty, except possibly the one after a final line break. */
  predicate NoBlankLine(text: string) {
    var lines := Split(text, "\n");
    forall k | 0 <= k < |lines| - 1 :: lines[k] != []
  }

  lemma SentencesAreLines(text: string)
    requires NoBlankLine(text)
    ensures var ss := Sentences(text);
      |ss| == |NonEmpty(Split(text, "\n"))|
      && forall i | 0 <= i < |ss| :: ss[i].text == NonEmpty(Split(text, "\n"))[i]
  {
    JoinSplit(text, '\n');
    SentencesAreLinesOf(text, Split(text, "\n"));
  }

  // --------------------------------------------------------------- get_chunks

  /** The first sentence, in key order, whose key exceeds `begin`. */
  function FirstAfter(ss: seq<Sentence>, begin: int): (r: Option<nat>)
    ensures r.Some? ==> (r.value < |ss| && begin < ss[r.value].end
      && forall j | 0 <= j < r.value :: ss[j].end <= begin)
    ensures r.None? ==> forall j | 0 <= j < |ss| :: ss[j].end <= begin
  {
    if ss == [] then None
    else if begin < ss[0].end then Some(0)
    else match FirstAfter(ss[1..], begin)
      case None => None
      case Some(k) => Some(k + 1)
  }

  /** The key loop of `get_chunks`: the sentence a chunk beginning at `begin` goes to. */
  method FindSentence(sentences: array<Sentence>, begin: int) returns (r: Option<nat>)
    ensures r == FirstAfter(sentences[..], begin)
  {
    for k := 0 to sentences.Length
      invariant forall j | 0 <= j < k :: sentences[j].end <= begin
    {
      if begin < sentences[k].end {
        return Some(k);
      }
    }
    return None;
  }

  function ToChunk(a: Annotation, text: string): Chunk {
    Chunk(a.begin, a.end, Slice(text, a.begin, a.end), a.kind)
  }

  /** One annotation handled by the first loop of `get_chunks`. */
  function Place(ss: seq<Sentence>, a: Annotation, text: string): (r: seq<Sentence>)
    ensures |r| == |ss|
  {
    if a.kind != "NP" then ss
    else match FirstAfter(ss, a.begin)
      case None => ss
      case Some(k) => ss[k := ss[k].(chunks := ss[k].chunks + [ToChunk(a, text)])]
  }

  function PlaceAll(ss: seq<Sentence>, annotations: seq<Annotation>, text: string): (r: seq<Sentence>)
    ensures |r| == |ss|
  {
    if annotations == [] then ss
    else Place(PlaceAll(ss, annotations[..|annotations| - 1], text), annotations[|annotations| - 1], text)
  }

  /** The first loop of `get_chunks`: every `NP` annotation appended to its sentence. */
  method PlaceChunks(sentences: array<Sentence>, annotations: seq<Annotation>, text: string)
    modifies sentences
    ensures sentences[..] == PlaceAll(old(sentences[..]), annotations, text)
  {
    ghost var before := sentences[..];
    for i := 0 to |annotations|
      invariant sentences[..] == PlaceAll(before, annotations[..i], text)
    {
      assert annotations[..i + 1][..i] == annotations[..i];
      var a := annotations[i];
      if a.kind != "NP" {
        continue;
      }
      var tokens := Slice(text, a.begin, a.end);
      var k := FindSentence(sentences, a.begin);
      if k.Some? {
        var s := sentences[k.value];
        sentences[k.value] := s.(chunks := s.chunks + [Chunk(a.begin, a.end, tokens, a.kind)]);
      }
    }
    assert annotations[..|annotations|] == annotations;
  }

  /** The chunks, in annotation order, of the `NP` annotations that belong to sentence `i` of `ss`. */
  function Owned(ss: seq<Sentence>, annotations: seq<Annotation>, text: string, i: nat): seq<Chunk> {
    if annotations == [] then []
    else
      var a := annotations[|annotations| - 1];
      Owned(ss, annotations[..|annotations| - 1], text, i)
        + if a.kind == "NP" && FirstAfter(ss, a.begin) == Some(i) then [ToChunk(a, text)] else []
  }

  /** Sequences with the same keys send every chunk to the same sentence. */
  lemma FirstAfterKeys(ss: seq<Sentence>, tt: seq<Sentence>, begin: int)
    requires |ss| == |tt| && forall i | 0 <= i < |ss| :: ss[i].end == tt[i].end
    ensures FirstAfter(ss, begin) == FirstAfter(tt, begin)
  {
  }

  /**
   * After the first loop of `get_chunks`, each sentence keeps its offsets and
   * text, and its chunk list has gained exactly the `NP` chunks whose first
   * later key is its own, in annotation order; other chunks are dropped.
   */
  lemma {:induction false} PlaceAllChunks(ss: seq<Sentence>, annotations: seq<Annotation>, text: string)
    ensures forall i | 0 <= i < |ss| ::
      PlaceAll(ss, annotations, text)[i] == ss[i].(chunks := ss[i].chunks + Owned(ss, annotations, text, i))
    decreases |annotations|
  {
    if annotations == [] {
      forall i | 0 <= i < |ss| ensures ss[i].chunks + [] == ss[i].chunks {
      }
    } else {
      var n := |annotations| - 1;
      var a := annotations[n];
      PlaceAllChunks(ss, annotations[..n], text);
      var prev := PlaceAll(ss, annotations[..n], text);
      FirstAfterKeys(ss, prev, a.begin);
      forall i | 0 <= i < |ss|
        ensures PlaceAll(ss, annotations, text)[i] == ss[i].(chunks := ss[i].chunks + Owned(ss, annotations, text, i))
      {
        var before := Owned(ss, annotations[..n], text, i);
        assert ss[i].chunks + before + [ToChunk(a, text)] == ss[i].chunks + (before + [ToChunk(a, text)]);
        assert before + [] == before;
      }
    }
  }

  /** The tag written at offset `x` of a chunk. */
  function Mark(x: nat): string {
    if x == 0 then "B-NP" else "I-NP"
  }

  /** `start` in `get_chunks`: the number of tokens of the sentence before the chunk. */
  function ChunkStart(s: Sentence, c: Chunk): nat {
    |Words(Slice(s.text, 0, c.begin - s.begin))|
  }

  /** `ch_len` in `get_chunks`: the number of tokens of the chunk. */
  function ChunkLen(c: Chunk): nat {
    |Words(c.tokens)|
  }

  /** `bio[start + x]` set for each `x < n`, stopping at the end of `bio` as the `IndexError` does. */
  function MarkRun(bio: seq<string>, start: nat, n: nat): (r: seq<string>)
    ensures |r| == |bio|
  {
    seq(|bio|, j requires 0 <= j < |bio| => if start <= j < start + n then Mark(j - start) else bio[j])
  }

  function MarkAll(bio: seq<string>, s: Sentence, cs: seq<Chunk>): (r: seq<string>)
    ensures |r| == |bio|
  {
    if cs == [] then bio
    else
      var c := cs[|cs| - 1];
      MarkRun(MarkAll(bio, s, cs[..|cs| - 1]), ChunkStart(s, c), ChunkLen(c))
  }

  /** The BIO tags of one sentence: one `O` per token, then every chunk written in order. */
  function SentenceBio(s: Sentence): seq<string> {
    MarkAll(seq(|Words(s.text)|, _ => "O"), s, s.chunks)
  }

  predicate Covers(s: Sentence, c: Chunk, j: int) {
    ChunkStart(s, c) <= j < ChunkStart(s, c) + ChunkLen(c)
  }

  /** The last chunk of `cs` that covers token `j`, if any. */
  function LastCover(s: Sentence, cs: seq<Chunk>, j: int): (r: Option<nat>)
    ensures r.Some? ==> (r.value < |cs| && Covers(s, cs[r.value], j)
      && forall k | r.value < k < |cs| :: !Covers(s, cs[k], j))
    ensures r.None? ==> forall k | 0 <= k < |cs| :: !Covers(s, cs[k], j)
  {
    if cs == [] then None
    else if Covers(s, cs[|cs| - 1], j) then Some(|cs| - 1)
    else
      assert forall k | 0 <= k < |cs| - 1 :: cs[..|cs| - 1][k] == cs[k];
      LastCover(s, cs[..|cs| - 1], j)
  }

  /**
   * Each token's tag is decided by the last chunk covering it: `B-NP` at the
   * chunk's first token, `I-NP` after it; a token no chunk covers keeps its tag.
   */
  lemma {:induction false} LastChunkWins(bio: seq<string>, s: Sentence, cs: seq<Chunk>, j: nat)
    requires j < |bio|
    ensures MarkAll(bio, s, cs)[j] == match LastCover(s, cs, j)
      case None => bio[j]
      case Some(k) => Mark(j - ChunkStart(s, cs[k]))
    decreases |cs|
  {
    if cs != [] {
      var n := |cs| - 1;
      var c := cs[n];
      LastChunkWins(bio, s, cs[..n], j);
      var prev := MarkAll(bio, s, cs[..n]);
      assert MarkAll(bio, s, cs) == MarkRun(prev, ChunkStart(s, c), ChunkLen(c));
      assert LastCover(s, cs, j) == if Covers(s, c, j) then Some(n) else LastCover(s, cs[..n], j);
    }
  }

  /** `bio[start + x]` for the `x` past the end of `bio` writes nothing. */
  lemma MarkRunPast(bio: seq<string>, start: nat, x: nat, n: nat)
    requires |bio| <= start + x && x <= n
    ensures MarkRun(bio, start, x) == MarkRun(bio, start, n)
  {
  }

  /** The `for x in range(ch_len)` loop of `get_chunks`, leaving it at the first `IndexError`. */
  method MarkChunk(a: array<string>, start: nat, chLen: nat)
    modifies a
    ensures a[..] == MarkRun(old(a[..]), start, chLen)
  {
    ghost var before := a[..];
    var x := 0;
    while x < chLen
      invariant x <= chLen && a[..] == MarkRun(before, start, x)
    {
      if start + x >= a.Length {
        MarkRunPast(before, start, x, chLen);
        break;
      }
      ghost var prev := a[..];
      a[start + x] := if x == 0 then "B-NP" else "I-NP";
      assert a[..] == MarkRun(before, start, x + 1) by {
        forall j | 0 <= j < a.Length ensures a[j] == MarkRun(before, start, x + 1)[j] {
          assert prev[j] == MarkRun(before, start, x)[j];
          if j != start + x {
            assert a[j] == prev[j];
          } else {
            assert a[j] == Mark(x);
          }
        }
      }
      x := x + 1;
    }
  }

  /** The inner loop of `get_chunks` for one sentence: its BIO tags. */
  method MarkSentence(s: Sentence) returns (bio: seq<string>)
    ensures bio == SentenceBio(s)
  {
    var words := Words(s.text);
    var a := new string[|words|](_ => "O");
    ghost var blank := a[..];
    assert blank == seq(|words|, _ => "O");
    for i := 0 to |s.chunks|
      invariant a[..] == MarkAll(blank, s, s.chunks[..i])
    {
      assert s.chunks[..i + 1][..i] == s.chunks[..i];
      var c := s.chunks[i];
      var b := c.begin - s.begin;
      var chLen := |Words(c.tokens)|;
      var start := |Words(Slice(s.text, 0, b))|;
      MarkChunk(a, start, chLen);
    }
    assert s.chunks[..|s.chunks|] == s.chunks;
    bio := a[..];
  }

  /** `sents`: the tokens of every sentence, in key order. */
  function AllTokens(ss: seq<Sentence>): seq<string> {
    if ss == [] then [] else AllTokens(ss[..|ss| - 1]) + Words(ss[|ss| - 1].text)
  }

  /** `bios`: the tags of every sentence, in key order; one tag per token. */
  function AllBio(ss: seq<Sentence>): (r: seq<string>)
    ensures |r| == |AllTokens(ss)|
  {
    if ss == [] then [] else AllBio(ss[..|ss| - 1]) + SentenceBio(ss[|ss| - 1])
  }

  /** `get_chunks` on the sentence table `sentences`, which it updates in place. */
  method GetChunks(annotations: seq<Annotation>, text: string, sentences: array<Sentence>)
    returns (sents: seq<string>, bios: seq<string>)
    modifies sentences
    ensures sentences[..] == PlaceAll(old(sentences[..]), annotations, text)
    ensures sents == AllTokens(sentences[..]) && bios == AllBio(sentences[..])
  {
    PlaceChunks(sentences, annotations, text);
    var ss := sentences[..];
    sents, bios := [], [];
    for i := 0 to |ss|
      invariant sentences[..] == ss
      invariant sents == AllTokens(ss[..i]) && bios == AllBio(ss[..i])
    {
      assert ss[..i + 1][..i] == ss[..i];
      var bio := MarkSentence(ss[i]);
      sents := sents + Words(ss[i].text);
      bios := bios + bio;
    }
    assert ss[..|ss|] == ss;
  }

  /** The tokens and BIO tags `process` stores for one document. */
  function Chunked(text: string, annotations: seq<Annotation>): (seq<string>, seq<string>) {
    var ss := PlaceAll(Sentences(text), annotations, text);
    (AllTokens(ss), AllBio(ss))
  }

  /** `get_chunks(NS, root, content, get_sentences(content))` for one document. */
  method ChunkDocument(text: string, annotations: seq<Annotation>) returns (sents: seq<string>, bios: seq<string>)
    ensures (sents, bios) == Chunked(text, annotations)
    ensures |sents| == |bios|
  {
    var ss := GetSentences(text);
    var sentences := new Sentence[|ss|](i requires 0 <= i < |ss| => ss[i]);
    assert sentences[..] == ss;
    sents, bios := GetChunks(annotations, text, sentences);
  }

  // ------------------------------------------------------------ token order

  lemma {:induction false} LineWordsNonEmpty(lines: seq<string>)
    ensures LineWords(NonEmpty(lines)) == LineWords(lines)
    decreases |lines|
  {
    if lines != [] {
      var n := |lines| - 1;
      LineWordsNonEmpty(lines[..n]);
      var ne := NonEmpty(lines[..n]);
      if lines[n] == [] {
        assert Words(lines[n]) == [];
      } else {
        assert (ne + [lines[n]])[..|ne|] == ne;
      }
    }
  }

  /** Splitting the lines joined by line breaks on whitespace gives each line's tokens in turn. */
  lemma {:induction false} WordsJoinLines(lines: seq<string>)
    ensures Words(Join(lines, "\n")) == LineWords(lines)
    decreases |lines|
  {
    var n := |lines| - 1;
    if n == 0 {
      assert lines[..0] == [];
    } else if n > 0 {
      assert lines[..n] + [lines[n]] == lines;
      JoinSnoc(lines[..n], lines[n], "\n");
      WordsAcross(Join(lines[..n], "\n"), '\n', lines[n]);
      WordsJoinLines(lines[..n]);
    }
  }

  lemma {:induction false} AllTokensTexts(ss: seq<Sentence>, ls: seq<string>)
    requires |ss| == |ls| && forall i | 0 <= i < |ss| :: ss[i].text == ls[i]
    ensures AllTokens(ss) == LineWords(ls)
    decreases |ss|
  {
    if ss != [] {
      AllTokensTexts(ss[..|ss| - 1], ls[..|ls| - 1]);
    }
  }

  /**
   * In a document without blank lines (a final line break is allowed), the
   * tokens `get_chunks` returns are exactly `text.split()`, and there is one
   * tag for each.
   */
  lemma ChunkedTokens(text: string, annotations: seq<Annotation>)
    requires NoBlankLine(text)
    ensures Chunked(text, annotations).0 == Words(text)
    ensures |Chunked(text, annotations).1| == |Words(text)|
  {
    var lines := Split(text, "\n");
    var ss := Sentences(text);
    var placed := PlaceAll(ss, annotations, text);
    SentencesAreLines(text);
    PlaceAllChunks(ss, annotations, text);
    AllTokensTexts(placed, NonEmpty(lines));
    LineWordsNonEmpty(lines);
    WordsJoinLines(lines);
    JoinSplit(text, '\n');
  }
}
