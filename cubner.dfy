/**
 * The CubNER file formats (`conch/preprocessing/cubner.py`): reading the
 * three-column, tab-separated token lines CubNER writes, and writing
 * documents for it, either as `word<TAB>tag` lines or as one line of text
 * per file. A file's contents are the sequence of lines iterating over it
 * yields, each with its line break.
 */
module Cubner {
  import opened Results
  import opened PyText
  import opened Sorting

  // -------------------------------------------------------------- read_cubner

  /** The word and the tag of one line of CubNER output, when the line holds a token. */
  function Record(line: string): Option<(string, string)> {
    var s := Strip(line);
    if s == [] then None
    else
      var fields := Split(s, "\t");
      if |fields| != 3 then None else Some((fields[0], fields[2]))
  }

  /** The tokens of a file, in order. */
  function Records(lines: seq<string>): seq<(string, string)> {
    if lines == [] then []
    else
      var prev := Records(lines[..|lines| - 1]);
      match Record(lines[|lines| - 1])
      case None => prev
      case Some(r) => prev + [r]
  }

  /** `read_cubner` on the lines of a file: the words and the tags, in parallel. */
  method ReadCubner(lines: seq<string>) returns (words: seq<string>, tags: seq<string>)
    ensures |words| == |tags| == |Records(lines)|
    ensures forall i | 0 <= i < |words| :: (words[i], tags[i]) == Records(lines)[i]
  {
    words, tags := [], [];
    for i := 0 to |lines|
      invariant |words| == |tags| == |Records(lines[..i])|
      invariant forall k | 0 <= k < |words| :: (words[k], tags[k]) == Records(lines[..i])[k]
    {
      assert lines[..i + 1][..i] == lines[..i];
      var line := Strip(lines[i]);
      if line == [] {
        continue;
      }
      var fields := Split(line, "\t");
      if |fields| != 3 {
        // The unpacking raises `ValueError`, which skips the line.
        continue;
      }
      words := words + [fields[0]];
      tags := tags + [fields[2]];
    }
    assert lines[..|lines|] == lines;
  }

  /** Reading a file read its parts separately. */
  lemma {:induction false} RecordsAppend(a: seq<string>, b: seq<string>)
    ensures Records(a + b) == Records(a) + Records(b)
    decreases |b|
  {
    if b == [] {
      assert a + b == a;
    } else {
      var n := |b| - 1;
      assert (a + b)[..|a + b| - 1] == a + b[..n];
      RecordsAppend(a, b[..n]);
    }
  }

  lemma RecordsSnoc(lines: seq<string>, line: string, r: (string, string))
    requires Record(line) == Some(r)
    ensures Records(lines + [line]) == Records(lines) + [r]
  {
    assert (lines + [line])[..|lines|] == lines;
  }

  /** A line of CubNER output: word, chunk column and tag, separated by tabs. */
  function CubnerLine(w: string, np: string, t: string): string {
    w + "\t" + np + "\t" + t + "\n"
  }

  /** A field that survives `strip()` at the start or the end of a line. */
  predicate Field(s: string) {
    s != [] && '\t' !in s && !IsSpace(s[0]) && !IsSpace(s[|s| - 1])
  }

  /** A blank line holds no token. */
  lemma BlankLine(line: string)
    requires Strip(line) == []
    ensures Records([line]) == []
  {
    assert [line][..0] == [];
  }

  lemma StripLine(body: string)
    requires body != [] && !IsSpace(body[0]) && !IsSpace(body[|body| - 1])
    ensures Strip(body + "\n") == body
  {
    var s := body + "\n";
    assert LStrip(s) == s;
    assert s[..|s| - 1] == body;
    assert RStrip(body) == body;
  }

  lemma SplitFields(w: string, np: string, t: string)
    requires '\t' !in w && '\t' !in np && '\t' !in t
    ensures Split(w + "\t" + np + "\t" + t, "\t") == [w, np, t]
  {
    var tail := np + "\t" + t;
    assert w + "\t" + np + "\t" + t == w + ['\t'] + tail;
    SplitAt(w, '\t', tail);
    SplitAt(np, '\t', t);
    SplitNoSep(t, '\t');
  }

  /** A CubNER line whose word and tag have no surrounding whitespace reads back as that word and tag. */
  lemma ReadLine(w: string, np: string, t: string)
    requires Field(w) && Field(t) && '\t' !in np
    ensures Record(CubnerLine(w, np, t)) == Some((w, t))
  {
    var body := w + "\t" + np + "\t" + t;
    assert CubnerLine(w, np, t) == body + "\n";
    StripLine(body);
    SplitFields(w, np, t);
  }

  /** Lines that each hold a token are read as those tokens, in order. */
  lemma RecordsAll(lines: seq<string>, recs: seq<(string, string)>)
    requires |lines| == |recs| && forall i | 0 <= i < |lines| :: Record(lines[i]) == Some(recs[i])
    ensures Records(lines) == recs
  {
    RecordsPrefix(lines, recs, |lines|);
    assert lines[..|lines|] == lines && recs[..|recs|] == recs;
  }

  lemma {:induction false} RecordsPrefix(lines: seq<string>, recs: seq<(string, string)>, k: nat)
    requires |lines| == |recs| && forall i | 0 <= i < |lines| :: Record(lines[i]) == Some(recs[i])
    requires k <= |lines|
    ensures Records(lines[..k]) == recs[..k]
  {
    if k > 0 {
      RecordsPrefix(lines, recs, k - 1);
      TakeSnoc(lines, k);
      TakeSnoc(recs, k);
      RecordsSnoc(lines[..k - 1], lines[k - 1], recs[k - 1]);
    }
  }

  /** The lines of a CubNER file holding the tokens `(word, chunk, tag)` of `toks`. */
  function Rendered(toks: seq<(string, string, string)>): (lines: seq<string>)
    ensures |lines| == |toks|
  {
    seq(|toks|, i requires 0 <= i < |toks| => CubnerLine(toks[i].0, toks[i].1, toks[i].2))
  }

  /** Reading a CubNER file gives back the word and the tag of every token, in order. */
  lemma ReadRendered(toks: seq<(string, string, string)>)
    requires forall i | 0 <= i < |toks| :: Field(toks[i].0) && Field(toks[i].2) && '\t' !in toks[i].1
    ensures Records(Rendered(toks)) == seq(|toks|, i requires 0 <= i < |toks| => (toks[i].0, toks[i].2))
  {
    var lines := Rendered(toks);
    var recs := seq(|toks|, i requires 0 <= i < |toks| => (toks[i].0, toks[i].2));
    forall i | 0 <= i < |lines| ensures Record(lines[i]) == Some(recs[i]) {
      ReadLine(toks[i].0, toks[i].1, toks[i].2);
    }
    RecordsAll(lines, recs);
  }

  // ------------------------------------------------------------- write_cubner

  /** A document's tokens and BIO tags. */
  type Doc = (seq<string>, seq<string>)

  function Min(a: nat, b: nat): nat {
    if a <= b then a else b
  }

  /** One `word.strip() + "\t" + tag` line for each pair `zip(txt, bio)` yields. */
  function TokenLines(d: Doc): (lines: seq<string>)
    ensures |lines| == Min(|d.0|, |d.1|)
  {
    seq(Min(|d.0|, |d.1|), i requires 0 <= i < Min(|d.0|, |d.1|) => Strip(d.0[i]) + "\t" + d.1[i])
  }

  /** The lines of every document, each document followed by an empty line. */
  function DocLines(docs: seq<Doc>): seq<string> {
    if docs == [] then []
    else DocLines(docs[..|docs| - 1]) + TokenLines(docs[|docs| - 1]) + [""]
  }

  /** The text of a file of `lines`, each followed by a line break. */
  function Text(lines: seq<string>): string {
    if lines == [] then [] else Text(lines[..|lines| - 1]) + lines[|lines| - 1] + "\n"
  }

  function ItemKey(item: (string, Doc)): string {
    item.0
  }

  /** The documents of `data`, in ascending order of their names. */
  function SortedDocs(data: seq<(string, Doc)>): (docs: seq<Doc>)
    ensures |docs| == |data|
  {
    var items := SortBy(data, ItemKey);
    assert |items| == |multiset(items)| == |data|;
    seq(|items|, i requires 0 <= i < |items| => items[i].1)
  }

  /**
   * What `write_cubner` writes for the dictionary `data`, given as its items.
   * An empty dictionary makes `list(zip(*[]))[1]` raise `IndexError`.
   */
  function CubnerOutput(data: seq<(string, Doc)>): (r: Result<string>)
    ensures r.Err? <==> data == []
    ensures r.Err? ==> r.error == IndexError
  {
    if data == [] then Err(IndexError) else Ok(Text(DocLines(SortedDocs(data))))
  }

  lemma TextSnoc(lines: seq<string>, line: string)
    ensures Text(lines + [line]) == Text(lines) + line + "\n"
  {
    assert (lines + [line])[..|lines|] == lines;
  }

  lemma TextStep(lines: seq<string>, i: nat)
    requires i < |lines|
    ensures Text(lines[..i + 1]) == Text(lines[..i]) + lines[i] + "\n"
  {
    assert lines[..i + 1] == lines[..i] + [lines[i]];
    TextSnoc(lines[..i], lines[i]);
  }

  lemma {:induction false} TextAppend(a: seq<string>, b: seq<string>)
    ensures Text(a + b) == Text(a) + Text(b)
    decreases |b|
  {
    if b == [] {
      assert a + b == a;
    } else {
      var n := |b| - 1;
      TextAppend(a, b[..n]);
      assert a + b == (a + b[..n]) + [b[n]] && b == b[..n] + [b[n]];
      TextSnoc(a + b[..n], b[n]);
      TextSnoc(b[..n], b[n]);
    }
  }

  /** The inner loop of `write_cubner`: the text written for one document. */
  method WriteDoc(d: Doc) returns (s: string)
    ensures s == Text(TokenLines(d) + [""])
  {
    var (txt, bio) := d;
    ghost var lines := TokenLines(d);
    s := "";
    for x := 0 to Min(|txt|, |bio|)
      invariant s == Text(lines[..x])
    {
      var line := Strip(txt[x]) + "\t" + bio[x];
      assert line == lines[x];
      TextSnoc(lines[..x], line);
      assert lines[..x + 1] == lines[..x] + [line];
      s := s + line + "\n";
    }
    assert lines[..|lines|] == lines;
    TextSnoc(lines, "");
    s := s + "\n";
  }

  /** `write_cubner` on the items of `data`: the text of the file it writes. */
  method WriteCubner(data: seq<(string, Doc)>) returns (r: Result<string>)
    ensures r == CubnerOutput(data)
  {
    if data == [] {
      // `zip(*[])` is empty, so taking its second element raises `IndexError`.
      return Err(IndexError);
    }
    var docs := SortedDocs(data);
    var out := "";
    for i := 0 to |docs|
      invariant out == Text(DocLines(docs[..i]))
    {
      var text := WriteDoc(docs[i]);
      DocTextStep(docs, i);
      out := out + text;
    }
    assert docs[..|docs|] == docs;
    return Ok(out);
  }

  lemma DocTextStep(docs: seq<Doc>, i: nat)
    requires i < |docs|
    ensures Text(DocLines(docs[..i + 1])) == Text(DocLines(docs[..i])) + Text(TokenLines(docs[i]) + [""])
  {
    assert docs[..i + 1][..i] == docs[..i];
    TextAppend(DocLines(docs[..i]), TokenLines(docs[i]) + [""]);
    assert DocLines(docs[..i + 1]) == DocLines(docs[..i]) + (TokenLines(docs[i]) + [""]);
  }

  lemma {:induction false} TextJoin(lines: seq<string>)
    ensures Text(lines) == Join(lines + [""], "\n")
    decreases |lines|
  {
    if lines != [] {
      var n := |lines| - 1;
      TextJoin(lines[..n]);
      assert lines[..n] + [lines[n]] == lines;
      if n == 0 {
        assert lines + [""] == [lines[0], ""];
        assert Join([""], "\n") == "";
      } else {
        JoinSnoc(lines[..n], "", "\n");
        JoinSnoc(lines[..n], lines[n], "\n");
        JoinSnoc(lines, "", "\n");
      }
    }
  }

  /** No word, once stripped, and no tag holds a tab or a line break. */
  predicate PlainDocs(docs: seq<Doc>) {
    forall i | 0 <= i < |docs| ::
      (forall k | 0 <= k < |docs[i].0| :: '\t' !in Strip(docs[i].0[k]) && '\n' !in Strip(docs[i].0[k]))
      && forall k | 0 <= k < |docs[i].1| :: '\t' !in docs[i].1[k] && '\n' !in docs[i].1[k]
  }

  lemma {:induction false} DocLinesPlain(docs: seq<Doc>)
    requires PlainDocs(docs)
    ensures forall k | 0 <= k < |DocLines(docs)| :: '\n' !in DocLines(docs)[k]
    decreases |docs|
  {
    if docs != [] {
      var n := |docs| - 1;
      assert PlainDocs(docs[..n]);
      DocLinesPlain(docs[..n]);
    }
  }

  /**
   * The file `write_cubner` writes, cut at its line breaks, is every
   * document's token lines followed by an empty line, in ascending order of
   * the document names; each token line cuts at its tab into the stripped
   * word and the tag.
   */
  lemma CubnerLines(data: seq<(string, Doc)>)
    requires data != [] && PlainDocs(SortedDocs(data))
    ensures Split(CubnerOutput(data).value, "\n") == DocLines(SortedDocs(data)) + [""]
  {
    var lines := DocLines(SortedDocs(data));
    TextJoin(lines);
    DocLinesPlain(SortedDocs(data));
    SplitJoin(lines + [""], '\n');
  }

  /** A token line cuts at its tab into the stripped word and the tag. */
  lemma TokenLineFields(word: string, tag: string)
    requires '\t' !in word && '\t' !in tag
    ensures Split(word + "\t" + tag, "\t") == [word, tag]
  {
    SplitAt(word, '\t', tag);
    SplitNoSep(tag, '\t');
  }

  /**
   * A line as `write_cubner` writes it, `word\ttag`, holds a single tab, so
   * `read_cubner` never finds the three fields it asks for and skips it.
   */
  lemma WrittenLineSkipped(word: string, tag: string)
    requires '\t' !in word && '\t' !in tag
    ensures Record(word + "\t" + tag + "\n") == None
  {
    var line := word + "\t" + tag + "\n";
    var s := Strip(line);
    if s != [] && |Split(s, "\t")| == 3 {
      var l := LStrip(line);
      var a := |line| - |l|;
      assert s == line[a..a + |s|];
      SplitThree(s, '\t');
      var i, j :| 0 <= i < j < |s| && s[i] == '\t' && s[j] == '\t';
      OnlyTab(word, tag);
      assert false;
    }
  }

  /** The one tab of a written token line is the one after the word. */
  lemma OnlyTab(word: string, tag: string)
    requires '\t' !in word && '\t' !in tag
    ensures forall k | 0 <= k < |word + "\t" + tag + "\n"| && k != |word| :: (word + "\t" + tag + "\n")[k] != '\t'
  {
    var line := word + "\t" + tag + "\n";
    assert forall k | 0 <= k < |word| :: line[k] == word[k];
    assert forall k | |word| < k < |word| + 1 + |tag| :: line[k] == tag[k - |word| - 1];
  }

  /** The documents come out in ascending order of their names. */
  lemma SortedDocsOrder(data: seq<(string, Doc)>)
    ensures var items := SortBy(data, ItemKey);
      && |items| == |data|
      && (forall i, j | 0 <= i < j < |items| :: LexLe(items[i].0, items[j].0))
      && forall i | 0 <= i < |items| :: SortedDocs(data)[i] == items[i].1
  {
    var items := SortBy(data, ItemKey);
    assert |items| == |multiset(items)| == |data|;
    assert forall i, j | 0 <= i < j < |items| :: LexLe(ItemKey(items[i]), ItemKey(items[j]));
  }

  // --------------------------------------------------------------- write_file

  /** The line written for one file: each of its lines stripped and followed by a space. */
  function FileLine(lines: seq<string>): string {
    if lines == [] then [] else FileLine(lines[..|lines| - 1]) + Strip(lines[|lines| - 1]) + " "
  }

  function PathKey(path: string): string {
    path
  }

  /** `open` can read every path. */
  predicate Readable(paths: seq<string>, files: map<string, seq<string>>) {
    forall i | 0 <= i < |paths| :: paths[i] in files
  }

  lemma SortedReadable(paths: seq<string>, files: map<string, seq<string>>)
    requires Readable(paths, files)
    ensures Readable(SortBy(paths, PathKey), files)
  {
    var sorted := SortBy(paths, PathKey);
    forall i | 0 <= i < |sorted| ensures sorted[i] in files {
      assert sorted[i] in multiset(sorted);
      var k :| 0 <= k < |paths| && paths[k] == sorted[i];
    }
  }

  /** One line per path of `paths`, in order. */
  function FileLines(paths: seq<string>, files: map<string, seq<string>>): (lines: seq<string>)
    requires Readable(paths, files)
    ensures |lines| == |paths|
  {
    seq(|paths|, i requires 0 <= i < |paths| => FileLine(files[paths[i]]))
  }

  /** What `write_file` writes for `paths`, where `files` holds each file's lines. */
  function FileOutput(paths: seq<string>, files: map<string, seq<string>>): string
    requires Readable(paths, files)
  {
    SortedReadable(paths, files);
    Text(FileLines(SortBy(paths, PathKey), files))
  }

  lemma FileLineSnoc(lines: seq<string>, k: nat)
    requires k < |lines|
    ensures FileLine(lines[..k + 1]) == FileLine(lines[..k]) + Strip(lines[k]) + " "
  {
    assert lines[..k + 1][..k] == lines[..k];
  }

  /** The inner loop of `write_file`: the text written for one file. */
  method WriteLines(contents: seq<string>) returns (s: string)
    ensures s == FileLine(contents)
  {
    s := "";
    for k := 0 to |contents|
      invariant s == FileLine(contents[..k])
    {
      var line := Strip(contents[k]);
      FileLineSnoc(contents, k);
      s := s + line + " ";
    }
    assert contents[..|contents|] == contents;
  }

  /** `write_file`: the text of the file it writes. */
  method WriteFile(paths: seq<string>, files: map<string, seq<string>>) returns (out: string)
    requires Readable(paths, files)
    ensures out == FileOutput(paths, files)
  {
    var sorted := SortBy(paths, PathKey);
    SortedReadable(paths, files);
    ghost var lines := FileLines(sorted, files);
    out := "";
    for i := 0 to |sorted|
      invariant out == Text(lines[..i])
    {
      var line := WriteLines(files[sorted[i]]);
      assert line == lines[i];
      TextStep(lines, i);
      out := out + line + "\n";
    }
    assert lines[..|lines|] == lines;
  }

  /** The file line so far is empty or ends with the space written after a line. */
  lemma FileLineEnd(lines: seq<string>)
    ensures FileLine(lines) == [] || FileLine(lines)[|FileLine(lines)| - 1] == ' '
  {
    if lines != [] {
      var x := FileLine(lines[..|lines| - 1]) + Strip(lines[|lines| - 1]);
      assert FileLine(lines) == x + " ";
    }
  }

  lemma WordsSpaced(x: string, y: string)
    requires x == [] || x[|x| - 1] == ' '
    ensures Words(x + y + " ") == Words(x) + Words(y)
  {
    WordsTrail(x + y);
    if x != [] {
      var x' := x[..|x| - 1];
      assert x == x' + " ";
      WordsTrail(x');
      assert x + y == x' + [' '] + y;
      WordsAcross(x', ' ', y);
    } else {
      assert x + y == y;
    }
  }

  /** A trailing space adds no token. */
  lemma WordsTrail(s: string)
    ensures Words(s + " ") == Words(s)
  {
    assert s + " " == s + [' '] + [];
    WordsAcross(s, ' ', []);
    assert Words([]) == [];
  }

  /** A file's line holds the tokens of all its lines, in order. */
  lemma {:induction false} FileLineWords(lines: seq<string>)
    ensures Words(FileLine(lines)) == LineWords(lines)
    decreases |lines|
  {
    if lines != [] {
      var n := |lines| - 1;
      FileLineWords(lines[..n]);
      WordsStrip(lines[n]);
      FileLineEnd(lines[..n]);
      WordsSpaced(FileLine(lines[..n]), Strip(lines[n]));
    }
  }

  /** No line of any file holds a line break once stripped. */
  predicate PlainFiles(files: map<string, seq<string>>) {
    forall p | p in files :: forall k | 0 <= k < |files[p]| :: '\n' !in Strip(files[p][k])
  }

  lemma {:induction false} FileLinePlain(lines: seq<string>)
    requires forall k | 0 <= k < |lines| :: '\n' !in Strip(lines[k])
    ensures '\n' !in FileLine(lines)
    decreases |lines|
  {
    if lines != [] {
      FileLinePlain(lines[..|lines| - 1]);
    }
  }

  /**
   * The file `write_file` writes, cut at its line breaks, has one line per
   * path in ascending order, then the empty text after the last line break;
   * the line of a file holds the tokens of that file's lines.
   */
  lemma FileOutputLines(paths: seq<string>, files: map<string, seq<string>>)
    requires Readable(paths, files) && PlainFiles(files)
    ensures var sorted := SortBy(paths, PathKey);
      && SortedBy(sorted, PathKey) && multiset(sorted) == multiset(paths)
      && Readable(sorted, files)
      && Split(FileOutput(paths, files), "\n") == FileLines(sorted, files) + [""]
      && forall i | 0 <= i < |sorted| :: Words(FileLines(sorted, files)[i]) == LineWords(files[sorted[i]])
  {
    var sorted := SortBy(paths, PathKey);
    SortedReadable(paths, files);
    var lines := FileLines(sorted, files);
    TextJoin(lines);
    forall k | 0 <= k < |lines| ensures '\n' !in lines[k] && Words(lines[k]) == LineWords(files[sorted[k]]) {
      FileLinePlain(files[sorted[k]]);
      FileLineWords(files[sorted[k]]);
    }
    SplitJoin(lines + [""], '\n');
  }
}
