/**
 * The parts of Python's `str` behaviour that the modelled code relies on:
 * `split(sep)`, `split()`, `strip()`, `sep.join`, slicing with clamped and
 * negative bounds, `int(s)` on decimal text, and the `<=` order on strings.
 */
module PyText {
  import opened Results

  /** Python's `str.isspace` for a single character. */
  predicate IsSpace(c: char) {
    c == ' ' || ('\t' <= c <= '\r') || ('\U{1C}' <= c <= '\U{1F}') || c == '\U{85}' || c == '\U{A0}'
    || c == '\U{1680}' || ('\U{2000}' <= c <= '\U{200A}') || c == '\U{2028}' || c == '\U{2029}'
    || c == '\U{202F}' || c == '\U{205F}' || c == '\U{3000}'
  }

  predicate NoSpace(s: string) {
    forall i | 0 <= i < |s| :: !IsSpace(s[i])
  }

  // ---------------------------------------------------------------- split(sep)

  /** `sep` occurs in `s` starting at position `j`. */
  predicate OccursAt(s: string, sep: string, j: nat) {
    j + |sep| <= |s| && s[j..j + |sep|] == sep
  }

  lemma OccursAtChar(s: string, c: char, j: nat)
    ensures OccursAt(s, [c], j) <==> j < |s| && s[j] == c
  {
    if j < |s| {
      assert s[j..j + 1] == [s[j]];
    }
  }

  /** The first index `i >= k` at which `sep` occurs in `s`, or -1. */
  function FindFrom(s: string, sep: string, k: nat): (i: int)
    requires |sep| > 0
    ensures i == -1 || (k <= i && OccursAt(s, sep, i))
    ensures i != -1 ==> forall j: nat | k <= j < i :: !OccursAt(s, sep, j)
    ensures i == -1 ==> forall j: nat | k <= j :: !OccursAt(s, sep, j)
    decreases |s| - k
  {
    if k + |sep| > |s| then -1
    else if s[k..k + |sep|] == sep then k
    else FindFrom(s, sep, k + 1)
  }

  /** Python's `s.split(sep)` for a non-empty separator. */
  function Split(s: string, sep: string): (parts: seq<string>)
    requires |sep| > 0
    ensures |parts| >= 1
    decreases |s|
  {
    var i := FindFrom(s, sep, 0);
    if i < 0 then [s] else [s[..i]] + Split(s[i + |sep|..], sep)
  }

  /** Python's `sep.join(parts)`. */
  function Join(parts: seq<string>, sep: string): string {
    if |parts| == 0 then []
    else if |parts| == 1 then parts[0]
    else parts[0] + sep + Join(parts[1..], sep)
  }

  lemma {:induction false} JoinSnoc(ls: seq<string>, l: string, sep: string)
    requires ls != []
    ensures Join(ls + [l], sep) == Join(ls, sep) + sep + l
    decreases |ls|
  {
    if |ls| == 1 {
      assert ls + [l] == [ls[0], l];
    } else {
      assert (ls + [l])[1..] == ls[1..] + [l];
      JoinSnoc(ls[1..], l, sep);
    }
  }

  /** `s.split(c)[0]`: the text before the first `c`. */
  function Head(s: string, c: char): string {
    Split(s, [c])[0]
  }

  /** `s.split(c)[-1]`: the text after the last `c`. */
  function Last(s: string, c: char): string {
    var parts := Split(s, [c]);
    parts[|parts| - 1]
  }

  lemma SplitNoSep(s: string, c: char)
    requires c !in s
    ensures Split(s, [c]) == [s]
  {
    var i := FindFrom(s, [c], 0);
    if i >= 0 {
      OccursAtChar(s, c, i);
      assert false;
    }
  }

  lemma SplitAt(a: string, c: char, b: string)
    requires c !in a
    ensures Split(a + [c] + b, [c]) == [a] + Split(b, [c])
  {
    var s := a + [c] + b;
    var i := FindFrom(s, [c], 0);
    OccursAtChar(s, c, |a|);
    if i < |a| {
      OccursAtChar(s, c, i);
      assert false;
    }
    assert i == |a|;
    assert s[..i] == a;
    assert s[i + 1..] == b;
  }

  /** Splitting into three or more pieces needs two occurrences of the separator. */
  lemma SplitThree(s: string, c: char)
    requires |Split(s, [c])| >= 3
    ensures exists i, j :: 0 <= i < j < |s| && s[i] == c && s[j] == c
  {
    var i := FindFrom(s, [c], 0);
    assert i >= 0;
    OccursAtChar(s, c, i);
    var rest := s[i + 1..];
    assert Split(s, [c]) == [s[..i]] + Split(rest, [c]);
    var i2 := FindFrom(rest, [c], 0);
    assert i2 >= 0;
    OccursAtChar(rest, c, i2);
    assert s[i + 1 + i2] == c;
  }

  /** A separator-free part survives joining and re-splitting. */
  lemma {:induction false} SplitJoin(parts: seq<string>, c: char)
    requires |parts| >= 1
    requires forall k | 0 <= k < |parts| :: c !in parts[k]
    ensures Split(Join(parts, [c]), [c]) == parts
    decreases |parts|
  {
    if |parts| == 1 {
      SplitNoSep(parts[0], c);
    } else {
      SplitAt(parts[0], c, Join(parts[1..], [c]));
      SplitJoin(parts[1..], c);
    }
  }

  /** Splitting on a character and joining back gives the original text. */
  lemma {:induction false} JoinSplit(s: string, c: char)
    ensures Join(Split(s, [c]), [c]) == s
    decreases |s|
  {
    var i := FindFrom(s, [c], 0);
    if i >= 0 {
      var rest := s[i + 1..];
      JoinSplit(rest, c);
      OccursAtChar(s, c, i);
      var parts := Split(s, [c]);
      assert parts == [s[..i]] + Split(rest, [c]);
      assert parts[1..] == Split(rest, [c]);
      assert s == s[..i] + [c] + rest;
    }
  }

  /** Every piece of `s.split(c)` is free of `c`. */
  lemma {:induction false} SplitPartsFree(s: string, c: char)
    ensures forall k | 0 <= k < |Split(s, [c])| :: c !in Split(s, [c])[k]
    decreases |s|
  {
    var i := FindFrom(s, [c], 0);
    if i < 0 {
      forall j | 0 <= j < |s| ensures s[j] != c {
        OccursAtChar(s, c, j);
      }
    } else {
      SplitPartsFree(s[i + 1..], c);
      forall j | 0 <= j < i ensures s[j] != c {
        OccursAtChar(s, c, j);
      }
    }
  }

  /** The pieces of a tag built as `"B-" + l` or `"I-" + l`. */
  lemma TagPieces(p: char, l: string)
    requires p != '-' && '-' !in l
    ensures Split([p, '-'] + l, ['-']) == [[p], l]
    ensures Head([p, '-'] + l, '-') == [p]
    ensures Last([p, '-'] + l, '-') == l
  {
    assert [p, '-'] + l == [p] + ['-'] + l;
    SplitAt([p], '-', l);
    SplitNoSep(l, '-');
  }

  // ---------------------------------------------------------------- split()

  /** The end of the run of non-space characters of `s` starting at `k`. */
  function WordEnd(s: string, k: nat): (e: nat)
    requires k <= |s|
    ensures k <= e <= |s|
    ensures forall j | k <= j < e :: !IsSpace(s[j])
    ensures e == |s| || IsSpace(s[e])
    decreases |s| - k
  {
    if k == |s| || IsSpace(s[k]) then k else WordEnd(s, k + 1)
  }

  /** Python's `s.split()`: the maximal runs of non-space characters. */
  function Words(s: string): (ws: seq<string>)
    ensures forall k | 0 <= k < |ws| :: |ws[k]| > 0 && NoSpace(ws[k])
    decreases |s|
  {
    if s == [] then []
    else if IsSpace(s[0]) then Words(s[1..])
    else
      var e := WordEnd(s, 0);
      [s[..e]] + Words(s[e..])
  }

  lemma WordsSpaceFirst(s: string)
    requires s != [] && IsSpace(s[0])
    ensures Words(s) == Words(s[1..])
  {
  }

  lemma WordsOfWord(t: string, r: string)
    requires |t| > 0 && NoSpace(t)
    requires r == [] || IsSpace(r[0])
    ensures Words(t + r) == [t] + Words(r)
  {
    var s := t + r;
    var e := WordEnd(s, 0);
    assert forall j | 0 <= j < |t| :: s[j] == t[j];
    assert |t| == |s| || s[|t|] == r[0];
    assert e == |t|;
    assert s[..e] == t && s[e..] == r;
  }

  /** Joining space-free words with single spaces and splitting again gives the words back. */
  lemma {:induction false} WordsJoin(ts: seq<string>)
    requires forall k | 0 <= k < |ts| :: |ts[k]| > 0 && NoSpace(ts[k])
    ensures Words(Join(ts, " ")) == ts
    decreases |ts|
  {
    if |ts| == 1 {
      WordsOfWord(ts[0], []);
      assert ts[0] + [] == ts[0];
    } else if |ts| > 1 {
      var rest := Join(ts[1..], " ");
      WordsOfWord(ts[0], " " + rest);
      assert ts[0] + " " + rest == ts[0] + (" " + rest);
      WordsSpaceFirst(" " + rest);
      assert (" " + rest)[1..] == rest;
      WordsJoin(ts[1..]);
    }
  }

  /** Splitting on whitespace across a whitespace character splits the two sides separately. */
  lemma {:induction false} WordsAcross(x: string, c: char, y: string)
    requires IsSpace(c)
    ensures Words(x + [c] + y) == Words(x) + Words(y)
    decreases |x|
  {
    var s := x + [c] + y;
    if x == [] {
      assert s == [c] + y;
      WordsSpaceFirst(s);
      assert s[1..] == y;
    } else if IsSpace(x[0]) {
      WordsSpaceFirst(s);
      assert s[1..] == x[1..] + [c] + y;
      WordsAcross(x[1..], c, y);
    } else {
      var e := WordEnd(x, 0);
      var t, rest := x[..e], x[e..];
      assert NoSpace(t) by {
        forall j | 0 <= j < |t| ensures !IsSpace(t[j]) {
          assert t[j] == x[j];
        }
      }
      assert x == t + rest && s == t + (rest + [c] + y);
      assert rest == [] || rest[0] == x[e];
      assert (rest + [c] + y)[0] == if rest == [] then c else rest[0];
      WordsOfWord(t, rest);
      WordsOfWord(t, rest + [c] + y);
      WordsAcross(rest, c, y);
    }
  }

  /** The tokens of each line, concatenated. */
  function LineWords(lines: seq<string>): seq<string> {
    if lines == [] then [] else LineWords(lines[..|lines| - 1]) + Words(lines[|lines| - 1])
  }

  // ---------------------------------------------------------------- strip()

  function LStrip(s: string): (r: string)
    ensures r == [] || !IsSpace(r[0])
    ensures |r| <= |s| && r == s[|s| - |r|..]
    decreases |s|
  {
    if s != [] && IsSpace(s[0]) then LStrip(s[1..]) else s
  }

  function RStrip(s: string): (r: string)
    ensures r == [] || !IsSpace(r[|r| - 1])
    ensures |r| <= |s| && r == s[..|r|]
    decreases |s|
  {
    if s != [] && IsSpace(s[|s| - 1]) then RStrip(s[..|s| - 1]) else s
  }

  /** Python's `s.strip()`: `s` without leading and trailing whitespace. */
  function Strip(s: string): (r: string)
    ensures r == [] || (!IsSpace(r[0]) && !IsSpace(r[|r| - 1]))
  {
    RStrip(LStrip(s))
  }

  lemma {:induction false} WordsLStrip(s: string)
    ensures Words(LStrip(s)) == Words(s)
    decreases |s|
  {
    if s != [] && IsSpace(s[0]) {
      WordsSpaceFirst(s);
      WordsLStrip(s[1..]);
    }
  }

  lemma {:induction false} WordsRStrip(s: string)
    ensures Words(RStrip(s)) == Words(s)
    decreases |s|
  {
    if s != [] && IsSpace(s[|s| - 1]) {
      WordsDropLast(s);
      WordsRStrip(s[..|s| - 1]);
    }
  }

  /** A trailing whitespace character ends no token. */
  lemma WordsDropLast(s: string)
    requires s != [] && IsSpace(s[|s| - 1])
    ensures Words(s) == Words(s[..|s| - 1])
  {
    var n := |s| - 1;
    assert s[..n] + [s[n]] + [] == s;
    WordsAcross(s[..n], s[n], []);
    assert Words([]) == [];
  }

  /** Stripping does not change the whitespace-separated tokens. */
  lemma WordsStrip(s: string)
    ensures Words(Strip(s)) == Words(s)
  {
    WordsLStrip(s);
    WordsRStrip(LStrip(s));
  }

  // ---------------------------------------------------------------- slicing

  /** A Python slice bound: negative counts from the end, then clamped to `[0, n]`. */
  function Clamp(i: int, n: nat): (r: nat)
    ensures r <= n
  {
    if i < 0 then (if i + n < 0 then 0 else i + n) else if i > n then n else i
  }

  /** A prefix one element longer is the shorter prefix followed by that element. */
  lemma TakeSnoc<T>(s: seq<T>, k: nat)
    requires 0 < k <= |s|
    ensures s[..k] == s[..k - 1] + [s[k - 1]]
  {
  }

  /** Python's `s[i:j]`. */
  function Slice<T>(s: seq<T>, i: int, j: int): (r: seq<T>)
    ensures |r| <= |s|
  {
    var a, b := Clamp(i, |s|), Clamp(j, |s|);
    if a < b then s[a..b] else []
  }

  /** The position Python's `s[i]` reads or writes in a sequence of length `n`, if any. */
  function Index(i: int, n: nat): (r: Option<nat>)
    ensures r.Some? <==> 0 <= i + n && i < n
    ensures r.Some? ==> r.value < n && (r.value == i || r.value == i + n)
  {
    if 0 <= i < n then Some(i) else if 0 <= i + n && i < 0 then Some(i + n) else None
  }

  // ---------------------------------------------------------------- int(s)

  predicate IsDigit(c: char) {
    '0' <= c <= '9'
  }

  /** Digits with single underscores between them, as `int` accepts. */
  predicate DigitGroups(s: string) {
    |s| > 0 && IsDigit(s[0]) && IsDigit(s[|s| - 1])
    && forall i | 0 <= i < |s| ::
         IsDigit(s[i]) || (s[i] == '_' && 0 < i < |s| - 1 && IsDigit(s[i - 1]) && IsDigit(s[i + 1]))
  }

  /** The decimal value of the digits of `s`, underscores ignored. */
  function DigitsValue(s: string): nat
    decreases |s|
  {
    if s == [] then 0
    else if IsDigit(s[|s| - 1]) then DigitsValue(s[..|s| - 1]) * 10 + (s[|s| - 1] as int - '0' as int)
    else DigitsValue(s[..|s| - 1])
  }

  /**
   * Python's `int(s)` for decimal text: surrounding whitespace, an optional
   * sign, then digit groups; anything else is a ValueError.
   */
  function ParseInt(s: string): (r: Result<int>)
    ensures r.Err? ==> r.error == ValueError
  {
    var t := Strip(s);
    if |t| > 0 && (t[0] == '-' || t[0] == '+') then
      if DigitGroups(t[1..]) then
        Ok(if t[0] == '-' then -(DigitsValue(t[1..]) as int) else DigitsValue(t[1..]))
      else Err(ValueError)
    else if DigitGroups(t) then Ok(DigitsValue(t))
    else Err(ValueError)
  }

  /** `int` reads a string of plain digits as its decimal value. */
  lemma ParseDigits(s: string)
    requires |s| > 0 && IsDigit(s[0]) && IsDigit(s[|s| - 1]) && DigitGroups(s)
    ensures ParseInt(s) == Ok(DigitsValue(s))
  {
    StripKeeps(s);
    assert s[0] != '-' && s[0] != '+';
  }

  lemma StripKeeps(s: string)
    requires |s| > 0 && !IsSpace(s[0]) && !IsSpace(s[|s| - 1])
    ensures Strip(s) == s
  {
    assert LStrip(s) == s;
    assert RStrip(s) == s;
  }

  // ---------------------------------------------------------------- ordering

  /** Python's `a <= b` on strings: code point by code point, a proper prefix first. */
  predicate LexLe(a: string, b: string)
    decreases |a|
  {
    a == [] || (b != [] && (a[0] < b[0] || (a[0] == b[0] && LexLe(a[1..], b[1..]))))
  }

  lemma {:induction false} LexLeTotal(a: string, b: string)
    ensures LexLe(a, b) || LexLe(b, a)
    decreases |a|
  {
    if a != [] && b != [] && a[0] == b[0] {
      LexLeTotal(a[1..], b[1..]);
    }
  }

  lemma {:induction false} LexLeTrans(a: string, b: string, c: string)
    requires LexLe(a, b) && LexLe(b, c)
    ensures LexLe(a, c)
    decreases |a|
  {
    if a != [] && a[0] == b[0] && b[0] == c[0] {
      LexLeTrans(a[1..], b[1..], c[1..]);
    }
  }

  lemma {:induction false} LexLeAntisym(a: string, b: string)
    requires LexLe(a, b) && LexLe(b, a)
    ensures a == b
    decreases |a|
  {
    if a != [] {
      LexLeAntisym(a[1..], b[1..]);
      assert a == [a[0]] + a[1..] && b == [b[0]] + b[1..];
    }
  }

  // ---------------------------------------------------------------- numbers

  /** Python's `str(n)` for an integer. */
  function IntToString(n: int): string {
    if n < 0 then "-" + NatToString(-n) else NatToString(n)
  }

  function NatToString(n: nat): (s: string)
    ensures |s| > 0 && forall i | 0 <= i < |s| :: IsDigit(s[i])
    decreases n
  {
    var d := ['0' + (n % 10) as char];
    if n < 10 then d else NatToString(n / 10) + d
  }

  /** Decimal printing and `int` parsing are inverse on naturals. */
  lemma {:induction false} NatToStringParses(n: nat)
    ensures DigitGroups(NatToString(n)) && DigitsValue(NatToString(n)) == n
    decreases n
  {
    var s := NatToString(n);
    var d := ['0' + (n % 10) as char];
    if n >= 10 {
      NatToStringParses(n / 10);
      assert s == NatToString(n / 10) + d;
      assert s[..|s| - 1] == NatToString(n / 10);
    }
  }
}
