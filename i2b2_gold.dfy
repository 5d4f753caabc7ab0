/**
 * Gold chunk extraction from the i2b2 data (conch/preprocessing/i2b2_gold.py):
 * the `.con` annotation lines are parsed into per-line concepts, overlapping
 * concepts are reported and optionally pruned, and the remaining concepts are
 * written as BIO tags over the whitespace tokens of the text, with an
 * inclusive end position.
 */
module I2b2Gold {
  import opened Results
  import opened PyText

  /** A concept on one text line: token positions `begin` to `end`, both included, and its type. */
  datatype Concept = Concept(begin: int, end: int, tag: string)

  // ------------------------------------------------------ _single_overlap

  /**
   * `_single_overlap`, branch by branch. For well-formed intervals it is the
   * overlap of closed intervals: touching at one position counts.
   */
  function SingleOverlap(a: (int, int), b: (int, int)): (r: bool)
    ensures a.0 <= a.1 && b.0 <= b.1 ==> (r <==> a.0 <= b.1 && b.0 <= a.1)
  {
    if a == b then true
    else if a.0 <= b.0 <= a.1 then true
    else if b.0 <= a.0 <= b.1 then true
    else if a.0 <= b.1 <= a.1 then true
    else if b.0 <= a.1 <= b.1 then true
    else false
  }

  lemma SingleOverlapSymmetric(a: (int, int), b: (int, int))
    ensures SingleOverlap(a, b) == SingleOverlap(b, a)
  {
  }

  // ------------------------------------------------------- _check_overlap

  /** Lexicographic order on index pairs, the order `combinations` produces them in. */
  predicate Before(p: (nat, nat), q: (nat, nat)) {
    p.0 < q.0 || (p.0 == q.0 && p.1 < q.1)
  }

  /** The overlapping pairs `(x, y)` with `y` from `y0` on. */
  function Row(chunks: seq<(int, int)>, x: nat, y0: nat): seq<(nat, nat)>
    requires x < y0 <= |chunks|
    decreases |chunks| - y0
  {
    if y0 == |chunks| then []
    else (if SingleOverlap(chunks[x], chunks[y0]) then [(x, y0)] else []) + Row(chunks, x, y0 + 1)
  }

  /** The overlapping pairs `(x, y)`, `x < y`, with `x` from `x0` on. */
  function Rows(chunks: seq<(int, int)>, x0: nat): seq<(nat, nat)>
    requires x0 <= |chunks|
    decreases |chunks| - x0
  {
    if x0 == |chunks| then [] else Row(chunks, x0, x0 + 1) + Rows(chunks, x0 + 1)
  }

  lemma {:induction false} RowMembers(chunks: seq<(int, int)>, x: nat, y0: nat)
    requires x < y0 <= |chunks|
    ensures forall p :: p in Row(chunks, x, y0) <==>
      p.0 == x && y0 <= p.1 < |chunks| && SingleOverlap(chunks[x], chunks[p.1])
    decreases |chunks| - y0
  {
    if y0 < |chunks| {
      RowMembers(chunks, x, y0 + 1);
      var rest := Row(chunks, x, y0 + 1);
      var head: seq<(nat, nat)> := if SingleOverlap(chunks[x], chunks[y0]) then [(x, y0)] else [];
      assert Row(chunks, x, y0) == head + rest;
    }
  }

  lemma {:induction false} RowOrdered(chunks: seq<(int, int)>, x: nat, y0: nat)
    requires x < y0 <= |chunks|
    ensures forall i | 0 <= i < |Row(chunks, x, y0)| :: Row(chunks, x, y0)[i].0 == x && y0 <= Row(chunks, x, y0)[i].1
    ensures forall i, j | 0 <= i < j < |Row(chunks, x, y0)| :: Row(chunks, x, y0)[i].1 < Row(chunks, x, y0)[j].1
    decreases |chunks| - y0
  {
    if y0 < |chunks| {
      RowOrdered(chunks, x, y0 + 1);
      var rest := Row(chunks, x, y0 + 1);
      var head: seq<(nat, nat)> := if SingleOverlap(chunks[x], chunks[y0]) then [(x, y0)] else [];
      var row := Row(chunks, x, y0);
      assert row == head + rest;
      forall i | 0 <= i < |row| ensures row[i].0 == x && y0 <= row[i].1 {
        if i >= |head| {
          assert row[i] == rest[i - |head|];
        }
      }
      forall i, j | 0 <= i < j < |row| ensures row[i].1 < row[j].1 {
        assert row[j] == rest[j - |head|];
        if i >= |head| {
          assert row[i] == rest[i - |head|];
        }
      }
    }
  }

  lemma {:induction false} RowsFacts(chunks: seq<(int, int)>, x0: nat)
    requires x0 <= |chunks|
    ensures forall p :: p in Rows(chunks, x0) <==>
      x0 <= p.0 < p.1 < |chunks| && SingleOverlap(chunks[p.0], chunks[p.1])
    ensures forall i, j | 0 <= i < j < |Rows(chunks, x0)| :: Before(Rows(chunks, x0)[i], Rows(chunks, x0)[j])
    decreases |chunks| - x0
  {
    if x0 < |chunks| {
      RowMembers(chunks, x0, x0 + 1);
      RowOrdered(chunks, x0, x0 + 1);
      RowsFacts(chunks, x0 + 1);
      var row, rest := Row(chunks, x0, x0 + 1), Rows(chunks, x0 + 1);
      assert forall i | 0 <= i < |rest| :: rest[i] in rest;
      assert forall i | 0 <= i < |row| :: row[i] in row;
    }
  }

  /**
   * What `_check_overlap` reports: every index pair `x < y` whose chunks
   * overlap, and nothing else, in lexicographic order.
   */
  function Overlaps(chunks: seq<(int, int)>): (r: seq<(nat, nat)>)
    ensures forall p :: p in r <==> p.0 < p.1 < |chunks| && SingleOverlap(chunks[p.0], chunks[p.1])
    ensures forall i, j | 0 <= i < j < |r| :: Before(r[i], r[j])
  {
    RowsFacts(chunks, 0);
    Rows(chunks, 0)
  }

  lemma Regroup<T>(a: seq<T>, b: seq<T>, c: seq<T>)
    ensures a + b + c == a + (b + c)
  {
  }

  /** `_check_overlap`: the nested loop over `combinations(range(n), 2)`. */
  method CheckOverlap(chunks: seq<(int, int)>) returns (overlaps: seq<(nat, nat)>)
    ensures overlaps == Overlaps(chunks)
  {
    overlaps := [];
    for x := 0 to |chunks|
      invariant overlaps + Rows(chunks, x) == Rows(chunks, 0)
    {
      assert Rows(chunks, x) == Row(chunks, x, x + 1) + Rows(chunks, x + 1);
      Regroup(overlaps, Row(chunks, x, x + 1), Rows(chunks, x + 1));
      for y := x + 1 to |chunks|
        invariant overlaps + Row(chunks, x, y) + Rows(chunks, x + 1) == Rows(chunks, 0)
      {
        if SingleOverlap(chunks[x], chunks[y]) {
          assert Row(chunks, x, y) == [(x, y)] + Row(chunks, x, y + 1);
          Regroup(overlaps, [(x, y)], Row(chunks, x, y + 1));
          overlaps := overlaps + [(x, y)];
        } else {
          assert Row(chunks, x, y) == Row(chunks, x, y + 1);
        }
      }
      assert Row(chunks, x, |chunks|) == [];
    }
  }

  // ------------------------------------------------------- the .con lines

  /**
   * One `.con` line, `c="text" L:B L:E||t="type"`: the 0-based line `L - 1`
   * and the concept `(B, E, type)`, where the type is the text after the
   * last `=` without its first character and its last two. A line without
   * exactly one `||`, with fewer than two words before it, or whose start
   * does not split into two `:`-pieces is a ValueError; an end without `:`
   * is an IndexError; numbers are read as `int` reads them.
   */
  function ParseCon(line: string): (r: Result<(int, Concept)>)
    ensures r.Err? ==> r.error == ValueError || r.error == IndexError
  {
    var halves := Split(line, "||");
    if |halves| != 2 then Err(ValueError)
    else
      var tag := Slice(Last(halves[1], '='), 1, -2);
      var ws := Words(halves[0]);
      var positions := Slice(ws, -2, |ws|);
      if |positions| != 2 then Err(ValueError)
      else
        var start := Split(positions[0], ":");
        if |start| != 2 then Err(ValueError)
        else
          var stop := Split(positions[1], ":");
          if |stop| < 2 then Err(IndexError)
          else
            var lineNo :- ParseInt(start[0]);
            var begin :- ParseInt(start[1]);
            var end :- ParseInt(stop[1]);
            Ok((lineNo - 1, Concept(begin, end, tag)))
  }

  /** The `.con` line for concept `c` of text line `line` (0-based), as i2b2 writes it. */
  function ConLine(text: string, line: nat, c: Concept): string
    requires c.begin >= 0 && c.end >= 0
  {
    text + " " + NatToString(line + 1) + ":" + NatToString(c.begin) + " "
    + NatToString(line + 1) + ":" + NatToString(c.end) + "||t=\"" + c.tag + "\"\n"
  }

  lemma NoOccurrence(s: string, sep: string)
    requires |sep| > 0 && sep[0] !in s
    ensures Split(s, sep) == [s]
  {
    forall j: nat ensures !OccursAt(s, sep, j) {
      if j + |sep| <= |s| {
        assert s[j..j + |sep|][0] == s[j];
      }
    }
  }

  lemma SplitPipes(a: string, b: string)
    requires '|' !in a && '|' !in b
    ensures Split(a + "||" + b, "||") == [a, b]
  {
    var s := a + "||" + b;
    assert OccursAt(s, "||", |a|) by {
      assert s[|a|..|a| + 2] == "||";
    }
    forall j: nat | j < |a| ensures !OccursAt(s, "||", j) {
      assert s[j] == a[j];
    }
    var i := FindFrom(s, "||", 0);
    assert i == |a|;
    assert s[..i] == a && s[i + 2..] == b;
    NoOccurrence(b, "||");
  }

  lemma ParseNat(n: nat)
    ensures ParseInt(NatToString(n)) == Ok(n)
  {
    NatToStringParses(n);
    ParseDigits(NatToString(n));
  }

  lemma SplitColon(a: nat, b: nat)
    ensures Split(NatToString(a) + ":" + NatToString(b), ":") == [NatToString(a), NatToString(b)]
  {
    SplitAt(NatToString(a), ':', NatToString(b));
    SplitNoSep(NatToString(b), ':');
  }

  lemma ConTag(tag: string)
    requires '=' !in tag
    ensures Slice(Last("t=\"" + tag + "\"\n", '='), 1, -2) == tag
  {
    var rest := "\"" + tag + "\"\n";
    assert "t=\"" + tag + "\"\n" == "t" + ['='] + rest;
    SplitAt("t", '=', rest);
    SplitNoSep(rest, '=');
    assert rest[1..|rest| - 2] == tag;
  }

  lemma ConWords(text: string, first: string, second: string)
    requires |first| > 0 && NoSpace(first) && |second| > 0 && NoSpace(second)
    ensures var ws := Words(text + " " + first + " " + second); Slice(ws, -2, |ws|) == [first, second]
  {
    var tail := first + " " + second;
    WordsPair(first, second);
    assert text + " " + first + " " + second == text + [' '] + tail;
    WordsAcross(text, ' ', tail);
    var ws := Words(text + " " + first + " " + second);
    assert ws == Words(text) + [first, second];
    assert Slice(ws, -2, |ws|) == ws[|ws| - 2..];
  }

  /** Two tokens joined by a space split back into those two tokens. */
  lemma WordsPair(first: string, second: string)
    requires |first| > 0 && NoSpace(first) && |second| > 0 && NoSpace(second)
    ensures Words(first + " " + second) == [first, second]
  {
    assert first + " " + second == first + [' '] + second;
    WordsAcross(first, ' ', second);
    WordsOfWord(first, []);
    WordsOfWord(second, []);
    assert first + [] == first && second + [] == second;
  }

  lemma PositionPieces(l: nat, b: nat)
    ensures |NatToString(l) + ":" + NatToString(b)| > 0 && NoSpace(NatToString(l) + ":" + NatToString(b))
    ensures Split(NatToString(l) + ":" + NatToString(b), ":") == [NatToString(l), NatToString(b)]
    ensures ParseInt(NatToString(l)) == Ok(l) && ParseInt(NatToString(b)) == Ok(b)
  {
    DigitsNoSpace(NatToString(l), NatToString(b));
    SplitColon(l, b);
    ParseNat(l);
    ParseNat(b);
  }

  lemma DigitsNoSpace(x: string, y: string)
    requires forall i | 0 <= i < |x| :: IsDigit(x[i])
    requires forall i | 0 <= i < |y| :: IsDigit(y[i])
    ensures NoSpace(x + ":" + y)
  {
    var s := x + ":" + y;
    forall i | 0 <= i < |s| ensures !IsSpace(s[i]) {
      if i < |x| {
        assert s[i] == x[i];
      } else if i > |x| {
        assert s[i] == y[i - |x| - 1];
      }
    }
  }

  /** Reading a `.con` line written for a concept gives back its line and the concept. */
  lemma ParseConLine(text: string, line: nat, c: Concept)
    requires c.begin >= 0 && c.end >= 0
    requires '|' !in text && '|' !in c.tag && '=' !in c.tag
    ensures ParseCon(ConLine(text, line, c)) == Ok((line, c))
  {
    var l := NatToString(line + 1);
    var first := l + ":" + NatToString(c.begin);
    var second := l + ":" + NatToString(c.end);
    var right := "t=\"" + c.tag + "\"\n";
    var left := text + " " + first + " " + second;
    assert ConLine(text, line, c) == left + "||" + right;
    SplitPipes(left, right);
    ConTag(c.tag);
    PositionPieces(line + 1, c.begin);
    PositionPieces(line + 1, c.end);
    ConWords(text, first, second);
  }

  // ------------------------------------------------------------ bio_dict

  /** `bio_dict[k].append(c)` on an insertion-ordered dictionary from line to concepts. */
  function AddTo(groups: seq<(int, seq<Concept>)>, k: int, c: Concept): seq<(int, seq<Concept>)>
    decreases |groups|
  {
    if groups == [] then [(k, [c])]
    else if groups[0].0 == k then [(k, groups[0].1 + [c])] + groups[1..]
    else [groups[0]] + AddTo(groups[1..], k, c)
  }

  /** The dictionary after all parsed lines, in reading order. */
  function Grouped(es: seq<(int, Concept)>): seq<(int, seq<Concept>)> {
    if es == [] then [] else AddTo(Grouped(es[..|es| - 1]), es[|es| - 1].0, es[|es| - 1].1)
  }

  /** `bio_dict[k]`: the concepts stored under `k`, or none. */
  function Lookup(groups: seq<(int, seq<Concept>)>, k: int): seq<Concept> {
    if groups == [] then [] else if groups[0].0 == k then groups[0].1 else Lookup(groups[1..], k)
  }

  predicate HasKey(groups: seq<(int, seq<Concept>)>, k: int) {
    exists i | 0 <= i < |groups| :: groups[i].0 == k
  }

  predicate DistinctKeys(groups: seq<(int, seq<Concept>)>) {
    forall i, j | 0 <= i < j < |groups| :: groups[i].0 != groups[j].0
  }

  /** The concepts of line `k`, in the order their `.con` lines come. */
  function On(es: seq<(int, Concept)>, k: int): seq<Concept> {
    if es == [] then []
    else On(es[..|es| - 1], k) + (if es[|es| - 1].0 == k then [es[|es| - 1].1] else [])
  }

  lemma {:induction false} AddToFacts(groups: seq<(int, seq<Concept>)>, k: int, c: Concept)
    requires DistinctKeys(groups)
    ensures DistinctKeys(AddTo(groups, k, c))
    ensures forall k' :: HasKey(AddTo(groups, k, c), k') <==> HasKey(groups, k') || k' == k
    ensures forall k' :: Lookup(AddTo(groups, k, c), k') == if k' == k then Lookup(groups, k) + [c] else Lookup(groups, k')
    decreases |groups|
  {
    if groups != [] && groups[0].0 != k {
      var rest := groups[1..];
      AddToFacts(rest, k, c);
      forall k' ensures HasKey(groups, k') <==> groups[0].0 == k' || HasKey(rest, k') {
        if HasKey(groups, k') && groups[0].0 != k' {
          var i :| 0 <= i < |groups| && groups[i].0 == k';
          assert rest[i - 1].0 == k';
        }
        if HasKey(rest, k') {
          var i :| 0 <= i < |rest| && rest[i].0 == k';
          assert groups[i + 1].0 == k';
        }
      }
      var r := AddTo(groups, k, c);
      forall k' ensures HasKey(r, k') <==> groups[0].0 == k' || HasKey(AddTo(rest, k, c), k') {
        assert r[0] == groups[0];
        if HasKey(r, k') && groups[0].0 != k' {
          var i :| 0 <= i < |r| && r[i].0 == k';
          assert r[1..][i - 1].0 == k';
        }
        if HasKey(AddTo(rest, k, c), k') {
          var i :| 0 <= i < |AddTo(rest, k, c)| && AddTo(rest, k, c)[i].0 == k';
          assert r[i + 1].0 == k';
        }
      }
      assert !HasKey(rest, groups[0].0);
      assert !HasKey(AddTo(rest, k, c), groups[0].0);
    } else if groups != [] {
      var r := AddTo(groups, k, c);
      assert |r| == |groups| && forall i | 0 <= i < |r| :: r[i].0 == groups[i].0;
      assert forall i | 1 <= i < |r| :: r[i] == groups[i];
      forall k' ensures HasKey(r, k') <==> HasKey(groups, k') {
        if HasKey(r, k') {
          var i :| 0 <= i < |r| && r[i].0 == k';
          assert groups[i].0 == k';
        }
        if HasKey(groups, k') {
          var i :| 0 <= i < |groups| && groups[i].0 == k';
          assert r[i].0 == k';
        }
      }
      assert HasKey(groups, k) by {
        assert groups[0].0 == k;
      }
    } else {
      assert AddTo(groups, k, c)[0].0 == k;
    }
  }

  lemma {:induction false} LookupAt(groups: seq<(int, seq<Concept>)>, i: nat)
    requires DistinctKeys(groups) && i < |groups|
    ensures Lookup(groups, groups[i].0) == groups[i].1
    decreases i
  {
    if i > 0 {
      LookupAt(groups[1..], i - 1);
    }
  }

  /**
   * The dictionary `bio_dict` holds one entry per line that has concepts,
   * and the entry of line `k` is exactly that line's concepts, in order.
   */
  lemma {:induction false} GroupedFacts(es: seq<(int, Concept)>)
    ensures DistinctKeys(Grouped(es))
    ensures forall k :: HasKey(Grouped(es), k) <==> On(es, k) != []
    ensures forall i | 0 <= i < |Grouped(es)| :: Grouped(es)[i].1 == On(es, Grouped(es)[i].0)
  {
    if es != [] {
      var n := |es| - 1;
      GroupedFacts(es[..n]);
      var prev := Grouped(es[..n]);
      forall k ensures Lookup(prev, k) == On(es[..n], k) {
        if HasKey(prev, k) {
          var i :| 0 <= i < |prev| && prev[i].0 == k;
          LookupAt(prev, i);
        } else {
          LookupMissing(prev, k);
        }
      }
      AddToFacts(prev, es[n].0, es[n].1);
      forall i | 0 <= i < |Grouped(es)| ensures Grouped(es)[i].1 == On(es, Grouped(es)[i].0) {
        LookupAt(Grouped(es), i);
      }
    }
  }

  lemma {:induction false} LookupMissing(groups: seq<(int, seq<Concept>)>, k: int)
    requires !HasKey(groups, k)
    ensures Lookup(groups, k) == []
    decreases |groups|
  {
    if groups != [] {
      assert !HasKey(groups[1..], k) by {
        forall i | 0 <= i < |groups| - 1 ensures groups[1..][i].0 != k {
          assert groups[1..][i] == groups[i + 1];
        }
      }
      LookupMissing(groups[1..], k);
    }
  }

  // ------------------------------------------------------------- pruning

  /** `[(b, e) for b, e, _ in v]`. */
  function Bounds(v: seq<Concept>): (r: seq<(int, int)>)
    ensures |r| == |v| && forall i | 0 <= i < |v| :: r[i] == (v[i].begin, v[i].end)
  {
    seq(|v|, i requires 0 <= i < |v| => (v[i].begin, v[i].end))
  }

  predicate InRange(pairs: seq<(nat, nat)>, n: nat) {
    forall i | 0 <= i < |pairs| :: pairs[i].0 < n && pairs[i].1 < n
  }

  /**
   * Where CPython's `set` puts a second integer `y` whose home slot `s` in
   * the 8-slot table of a new set is already taken: it perturbs the probe by
   * the hash (an integer's own value) shifted right 5 bits at a time,
   * `s := (5 * s + 1 + perturb) % 8`, until it reaches a free slot.
   */
  function Reprobe(s: nat, perturb: nat): (r: nat)
    requires s < 8
    ensures r < 8 && r != s
    decreases perturb
  {
    var p := perturb / 32;
    var j := (5 * s + 1 + p) % 8;
    if j != s then j
    else
      assert p != 0 by {
        assert (5 * s + 1) % 8 != s;
      }
      Reprobe(s, p)
  }

  /**
   * The slots of the set `{x, y}`, `x` added first: `x` at `x % 8`, `y` at
   * `y % 8` unless that is taken, in which case it reprobes.
   */
  function Slots(p: (nat, nat)): (r: (nat, nat))
    ensures r.0 < 8 && r.1 < 8 && r.0 != r.1
  {
    (p.0 % 8, if p.1 % 8 != p.0 % 8 then p.1 % 8 else Reprobe(p.0 % 8, p.1))
  }

  /**
   * `a, b = {x, y}`: a set iterates its table in slot order, so the pair
   * comes out in the order of the slots its two integers landed in.
   */
  function SetOrder(p: (nat, nat)): (r: (nat, nat))
    ensures r == p || r == (p.1, p.0)
    ensures p.0 != p.1 ==> (r == p <==> Slots(p).0 < Slots(p).1)
  {
    if Slots(p).0 < Slots(p).1 then p else (p.1, p.0)
  }

  /** Two integers in different slots come out in the order of their remainders modulo 8. */
  lemma SetOrderDistinctSlots(x: nat, y: nat)
    requires x % 8 != y % 8
    ensures SetOrder((x, y)) == if x % 8 < y % 8 then (x, y) else (y, x)
  {
  }

  /** Below 8 a pair `x < y` comes out in ascending order. */
  lemma SetOrderBelow8(x: nat, y: nat)
    requires x < y < 8
    ensures SetOrder((x, y)) == (x, y)
  {
    SetOrderDistinctSlots(x, y);
  }

  /** `{7, 8}` and `{2, 9}` come out high first; `{1, 9}` and `{3, 11}` share a home slot and reprobe. */
  lemma SetOrderExamples()
    ensures SetOrder((7, 8)) == (8, 7) && SetOrder((2, 9)) == (9, 2)
    ensures SetOrder((1, 9)) == (1, 9) && SetOrder((3, 11)) == (11, 3)
  {
    SetOrderDistinctSlots(7, 8);
    SetOrderDistinctSlots(2, 9);
    assert Reprobe(1, 9) == 6;
    assert Reprobe(3, 11) == 0;
  }

  /** The concept of an overlapping pair that is removed: the second when the first is strictly longer, else the first. */
  function Loser(v: seq<Concept>, p: (nat, nat)): (r: nat)
    requires p.0 < |v| && p.1 < |v|
    ensures r == p.0 || r == p.1
    ensures v[r].end - v[r].begin <= v[if r == p.0 then p.1 else p.0].end - v[if r == p.0 then p.1 else p.0].begin
    ensures r == p.1 && p.0 != p.1 ==> v[p.0].end - v[p.0].begin > v[p.1].end - v[p.1].begin
  {
    if v[p.0].end - v[p.0].begin > v[p.1].end - v[p.1].begin then p.1 else p.0
  }

  /**
   * On an equal-length pair `x < y` the loser is whichever of the two the set
   * yields first: `x` when both are below 8, but `8` for the pair `(7, 8)`.
   */
  lemma TieLoser(v: seq<Concept>, x: nat, y: nat)
    requires x < y < |v| && v[x].end - v[x].begin == v[y].end - v[y].begin
    ensures Loser(v, SetOrder((x, y))) == SetOrder((x, y)).0
    ensures y < 8 ==> Loser(v, SetOrder((x, y))) == x
    ensures x == 7 && y == 8 ==> Loser(v, SetOrder((x, y))) == y
  {
    if y < 8 {
      SetOrderBelow8(x, y);
    }
    if x == 7 && y == 8 {
      SetOrderExamples();
    }
  }

  /** `to_remove` with `remove_overlap`: one loser per non-identical overlapping pair. */
  function Losers(v: seq<Concept>, pairs: seq<(nat, nat)>): (r: seq<nat>)
    requires InRange(pairs, |v|)
  {
    if pairs == [] then []
    else
      var n := |pairs| - 1;
      assert InRange(pairs[..n], |v|) by {
        assert forall i | 0 <= i < n :: pairs[..n][i] == pairs[i];
      }
      Losers(v, pairs[..n]) + (if v[pairs[n].0] != v[pairs[n].1] then [Loser(v, SetOrder(pairs[n]))] else [])
  }

  /** The removed indices are the losers of the non-identical pairs, each taken in set order. */
  lemma LosersMembers(v: seq<Concept>, pairs: seq<(nat, nat)>)
    requires InRange(pairs, |v|)
    ensures forall x :: x in Losers(v, pairs) <==>
      exists i | 0 <= i < |pairs| :: v[pairs[i].0] != v[pairs[i].1] && x == Loser(v, SetOrder(pairs[i]))
  {
    forall x ensures x in Losers(v, pairs) <==>
      exists i | 0 <= i < |pairs| :: v[pairs[i].0] != v[pairs[i].1] && x == Loser(v, SetOrder(pairs[i]))
    {
      if x in Losers(v, pairs) {
        LosersFrom(v, pairs, x);
      }
      if i :| 0 <= i < |pairs| && v[pairs[i].0] != v[pairs[i].1] && x == Loser(v, SetOrder(pairs[i])) {
        LosersHas(v, pairs, i);
      }
    }
  }

  lemma {:induction false} LosersHas(v: seq<Concept>, pairs: seq<(nat, nat)>, i: nat)
    requires InRange(pairs, |v|) && i < |pairs| && v[pairs[i].0] != v[pairs[i].1]
    ensures Loser(v, SetOrder(pairs[i])) in Losers(v, pairs)
  {
    var n := |pairs| - 1;
    var p := pairs[..n];
    assert forall j | 0 <= j < n :: p[j] == pairs[j];
    if i < n {
      LosersHas(v, p, i);
    }
  }

  lemma {:induction false} LosersFrom(v: seq<Concept>, pairs: seq<(nat, nat)>, x: nat)
    requires InRange(pairs, |v|) && x in Losers(v, pairs)
    ensures exists i | 0 <= i < |pairs| :: v[pairs[i].0] != v[pairs[i].1] && x == Loser(v, SetOrder(pairs[i]))
  {
    var n := |pairs| - 1;
    var p := pairs[..n];
    assert forall j | 0 <= j < n :: p[j] == pairs[j];
    if x in Losers(v, p) {
      LosersFrom(v, p, x);
      var i :| 0 <= i < n && v[p[i].0] != v[p[i].1] && x == Loser(v, SetOrder(p[i]));
      assert pairs[i] == p[i];
    } else {
      assert v[pairs[n].0] != v[pairs[n].1] && x == Loser(v, SetOrder(pairs[n]));
    }
  }

  /** `x` is a concept of `v` at an index that is not dropped. */
  predicate Undropped(v: seq<Concept>, drop: seq<nat>, x: Concept) {
    exists i | 0 <= i < |v| :: i !in drop && x == v[i]
  }

  /** `[x for idx, x in enumerate(v) if idx not in to_remove]`. */
  function Survivors(v: seq<Concept>, drop: seq<nat>): (r: seq<Concept>)
    ensures forall m | 0 <= m < |r| :: Undropped(v, drop, r[m])
    ensures forall i | 0 <= i < |v| && i !in drop :: v[i] in r
    ensures drop == [] ==> r == v
  {
    if v == [] then []
    else
      var n := |v| - 1;
      var prev := Survivors(v[..n], drop);
      var r := prev + (if n in drop then [] else [v[n]]);
      SurvivorsSnoc(v, v[..n], drop, prev, r);
      assert v == v[..n] + [v[n]];
      r
  }

  /** The survivor facts of `u`, `v` without its last concept, carry over to `v` whether that concept is kept or dropped. */
  lemma SurvivorsSnoc(v: seq<Concept>, u: seq<Concept>, drop: seq<nat>, prev: seq<Concept>, r: seq<Concept>)
    requires v != [] && u == v[..|v| - 1]
    requires forall m | 0 <= m < |prev| :: Undropped(u, drop, prev[m])
    requires forall i | 0 <= i < |u| && i !in drop :: u[i] in prev
    requires r == prev + (if |u| in drop then [] else [v[|u|]])
    ensures forall m | 0 <= m < |r| :: Undropped(v, drop, r[m])
    ensures forall i | 0 <= i < |v| && i !in drop :: v[i] in r
  {
    var n := |u|;
    forall m | 0 <= m < |r| ensures Undropped(v, drop, r[m]) {
      if m < |prev| {
        assert r[m] == prev[m];
        var i :| 0 <= i < |u| && i !in drop && prev[m] == u[i];
        assert r[m] == v[i];
      } else {
        assert n !in drop && r[m] == v[n];
      }
    }
    forall i | 0 <= i < |v| && i !in drop ensures v[i] in r {
      if i < n {
        assert u[i] == v[i] && u[i] in prev;
      } else {
        assert r[|prev|] == v[n];
      }
    }
  }

  /** A pair of the line's concepts that overlap without being identical. */
  predicate HasClash(v: seq<Concept>, pairs: seq<(nat, nat)>)
    requires InRange(pairs, |v|)
  {
    exists i | 0 <= i < |pairs| :: v[pairs[i].0] != v[pairs[i].1]
  }

  /**
   * The pruning of the concepts `v` of line `k`: every non-identical
   * overlapping pair reads line `k` of the text (an index error when there is
   * no such line), and with `remove_overlap` the loser of each such pair goes.
   */
  function Prune(v: seq<Concept>, k: int, lines: nat, removeOverlap: bool): (r: Result<seq<Concept>>)
    ensures r.Err? <==> Index(k, lines).None? && HasClash(v, Overlaps(Bounds(v)))
    ensures r.Err? ==> r.error == IndexError
    ensures r.Ok? && !removeOverlap ==> r.value == v
  {
    var pairs := Overlaps(Bounds(v));
    if Index(k, lines).None? && HasClash(v, pairs) then Err(IndexError)
    else Ok(Survivors(v, if removeOverlap then Losers(v, pairs) else []))
  }

  predicate Separate(v: seq<Concept>, drop: seq<nat>) {
    forall i, j | 0 <= i < j < |v| && i !in drop && j !in drop &&
        SingleOverlap((v[i].begin, v[i].end), (v[j].begin, v[j].end)) ::
      v[i] == v[j]
  }

  /** Every non-identical overlapping pair loses one of its two concepts. */
  lemma LosersSeparate(v: seq<Concept>)
    ensures Separate(v, Losers(v, Overlaps(Bounds(v))))
  {
    LosersCover(v);
  }

  lemma LosersCover(v: seq<Concept>)
    ensures forall i, j | 0 <= i < j < |v| && v[i] != v[j] &&
        SingleOverlap((v[i].begin, v[i].end), (v[j].begin, v[j].end)) ::
      i in Losers(v, Overlaps(Bounds(v))) || j in Losers(v, Overlaps(Bounds(v)))
  {
    var pairs := Overlaps(Bounds(v));
    var drop := Losers(v, pairs);
    LosersMembers(v, pairs);
    forall i, j | 0 <= i < j < |v| && v[i] != v[j] && SingleOverlap((v[i].begin, v[i].end), (v[j].begin, v[j].end))
      ensures i in drop || j in drop
    {
      assert (i, j) in pairs;
      var q :| 0 <= q < |pairs| && pairs[q] == (i, j);
      assert Loser(v, SetOrder(pairs[q])) in drop;
    }
  }

  /** No two of the concepts `s` overlap unless they are identical. */
  predicate NoClash(s: seq<Concept>) {
    forall m, m' | 0 <= m < |s| && 0 <= m' < |s| && SingleOverlap((s[m].begin, s[m].end), (s[m'].begin, s[m'].end)) ::
      s[m] == s[m']
  }

  lemma SurvivorsSeparate(v: seq<Concept>, drop: seq<nat>)
    requires Separate(v, drop)
    ensures NoClash(Survivors(v, drop))
  {
    SeparateNoClash(v, drop, Survivors(v, drop));
  }

  lemma SeparateNoClash(v: seq<Concept>, drop: seq<nat>, s: seq<Concept>)
    requires Separate(v, drop)
    requires forall m | 0 <= m < |s| :: Undropped(v, drop, s[m])
    ensures NoClash(s)
  {
    forall m, m' | 0 <= m < |s| && 0 <= m' < |s| && SingleOverlap((s[m].begin, s[m].end), (s[m'].begin, s[m'].end))
      ensures s[m] == s[m']
    {
      var i :| 0 <= i < |v| && i !in drop && s[m] == v[i];
      var j :| 0 <= j < |v| && j !in drop && s[m'] == v[j];
      if j < i {
        SingleOverlapSymmetric((v[i].begin, v[i].end), (v[j].begin, v[j].end));
      }
    }
  }

  /**
   * After pruning with `remove_overlap`, no two surviving concepts overlap
   * unless they are identical.
   */
  lemma PrunedDisjoint(v: seq<Concept>, k: int, lines: nat)
    requires Prune(v, k, lines, true).Ok?
    ensures NoClash(Prune(v, k, lines, true).value)
  {
    var drop := Losers(v, Overlaps(Bounds(v)));
    assert Prune(v, k, lines, true).value == Survivors(v, drop);
    LosersSeparate(v);
    SurvivorsSeparate(v, drop);
  }

  /** One more pair adds its loser, if it is not identical, and may add a clash. */
  lemma PairsSnoc(v: seq<Concept>, pairs: seq<(nat, nat)>, i: nat)
    requires InRange(pairs, |v|) && i < |pairs|
    ensures var p, q := pairs[..i], pairs[..i + 1];
      var c := v[pairs[i].0] != v[pairs[i].1];
      InRange(p, |v|) && InRange(q, |v|) &&
      Losers(v, q) == Losers(v, p) + (if c then [Loser(v, SetOrder(pairs[i]))] else []) &&
      (HasClash(v, q) <==> HasClash(v, p) || c)
  {
    var p, q := pairs[..i], pairs[..i + 1];
    assert q[..i] == p;
    LosersLast(v, q);
    ClashLast(v, q);
  }

  lemma LosersLast(v: seq<Concept>, q: seq<(nat, nat)>)
    requires InRange(q, |v|) && q != []
    ensures InRange(q[..|q| - 1], |v|)
    ensures Losers(v, q) ==
      Losers(v, q[..|q| - 1]) + (if v[q[|q| - 1].0] != v[q[|q| - 1].1] then [Loser(v, SetOrder(q[|q| - 1]))] else [])
  {
  }

  lemma ClashLast(v: seq<Concept>, q: seq<(nat, nat)>)
    requires InRange(q, |v|) && q != []
    ensures InRange(q[..|q| - 1], |v|)
    ensures HasClash(v, q) <==> HasClash(v, q[..|q| - 1]) || v[q[|q| - 1].0] != v[q[|q| - 1].1]
  {
    var n := |q| - 1;
    if HasClash(v, q) && !HasClash(v, q[..n]) {
      var j :| 0 <= j < |q| && v[q[j].0] != v[q[j].1];
    }
  }

  /** A non-identical pair at `i` is a clash of the whole list. */
  lemma ClashAt(v: seq<Concept>, pairs: seq<(nat, nat)>, i: nat)
    requires InRange(pairs, |v|) && i < |pairs| && v[pairs[i].0] != v[pairs[i].1]
    ensures HasClash(v, pairs)
  {
  }

  /**
   * The loop over the overlapping pairs: identical pairs are skipped; any
   * other pair reads line `k` of the text, and with `remove_overlap` adds
   * its loser to `to_remove`.
   */
  method RemovalList(v: seq<Concept>, overlaps: seq<(nat, nat)>, k: int, lines: nat, removeOverlap: bool)
    returns (r: Result<seq<nat>>)
    requires InRange(overlaps, |v|)
    ensures r.Err? <==> Index(k, lines).None? && HasClash(v, overlaps)
    ensures r.Err? ==> r.error == IndexError
    ensures r.Ok? ==> r.value == if removeOverlap then Losers(v, overlaps) else []
  {
    var toRemove: seq<nat> := [];
    for i := 0 to |overlaps|
      invariant toRemove == if removeOverlap then Losers(v, overlaps[..i]) else []
      invariant Index(k, lines).None? ==> !HasClash(v, overlaps[..i])
    {
      PairsSnoc(v, overlaps, i);
      var (a, b) := SetOrder(overlaps[i]);
      if v[a] == v[b] {
        continue;
      }
      if Index(k, lines).None? {
        ClashAt(v, overlaps, i);
        return Err(IndexError);
      }
      if removeOverlap {
        if v[a].end - v[a].begin > v[b].end - v[b].begin {
          toRemove := toRemove + [b];
        } else {
          toRemove := toRemove + [a];
        }
      }
    }
    assert overlaps[..|overlaps|] == overlaps;
    return Ok(toRemove);
  }

  // ------------------------------------------------------------- writing

  /** `"{}-{}".format(t, tag)` with `t` `B` at offset 0 and `I` after. */
  function Bio(x: int, tag: string): string {
    (if x == 0 then "B" else "I") + "-" + tag
  }

  /** The number of writes for a concept: `range((end - begin) + 1)`. */
  function Width(c: Concept): nat {
    if c.end - c.begin + 1 > 0 then c.end - c.begin + 1 else 0
  }

  /** The first `n` writes of concept `c` into `row`, each through Python's index rules. */
  function WriteRun(row: seq<string>, c: Concept, n: nat): (r: Result<seq<string>>)
    ensures r.Ok? ==> |r.value| == |row|
    ensures r.Ok? <==> n == 0 || (-|row| <= c.begin && c.begin + n <= |row|)
    ensures r.Err? ==> r.error == IndexError
  {
    if n == 0 then Ok(row)
    else
      var prev := WriteRun(row, c, n - 1);
      var p := Index(c.begin + n - 1, |row|);
      if prev.Err? then prev
      else if p.None? then Err(IndexError)
      else Ok(prev.value[p.value := Bio(n - 1, c.tag)])
  }

  predicate SameShape(a: seq<seq<string>>, b: seq<seq<string>>) {
    |a| == |b| && forall i | 0 <= i < |a| :: |a[i]| == |b[i]|
  }

  /** The writes of one concept into line `k` of `bio`; the line is looked up only if something is written. */
  function WriteConcept(bio: seq<seq<string>>, k: int, c: Concept): (r: Result<seq<seq<string>>>)
    ensures r.Ok? ==> SameShape(r.value, bio)
    ensures r.Err? ==> r.error == IndexError
  {
    if Width(c) == 0 then Ok(bio)
    else
      var li := Index(k, |bio|);
      if li.None? then Err(IndexError)
      else
        var row := WriteRun(bio[li.value], c, Width(c));
        if row.Err? then Err(IndexError) else Ok(bio[li.value := row.value])
  }

  /** The concepts of line `k` written in order, later ones over earlier ones. */
  function WriteGroup(bio: seq<seq<string>>, k: int, cs: seq<Concept>): (r: Result<seq<seq<string>>>)
    ensures r.Ok? ==> SameShape(r.value, bio)
    ensures r.Err? ==> r.error == IndexError
  {
    if cs == [] then Ok(bio)
    else
      var prev := WriteGroup(bio, k, cs[..|cs| - 1]);
      if prev.Err? then prev else WriteConcept(prev.value, k, cs[|cs| - 1])
  }

  /** The writes of `n` positions from `c.begin` on, all inside the row. */
  lemma {:induction false} WriteRunCells(row: seq<string>, c: Concept, n: nat)
    requires 0 <= c.begin && c.begin + n <= |row|
    ensures WriteRun(row, c, n).Ok?
    ensures forall p | 0 <= p < |row| ::
      WriteRun(row, c, n).value[p] == if c.begin <= p < c.begin + n then Bio(p - c.begin, c.tag) else row[p]
  {
    if n > 0 {
      WriteRunCells(row, c, n - 1);
    }
  }

  predicate Covers(c: Concept, p: int) {
    c.begin <= p <= c.end
  }

  /**
   * BIO writing with an inclusive end, later concepts over earlier ones:
   * when every concept lies inside line `k`, each position of that line
   * covered by some concept holds `B-type` or `I-type` of the last concept
   * covering it, `B` exactly at that concept's begin; every other position
   * and every other line is unchanged.
   */
  lemma {:induction false} LastWriterWins(bio: seq<seq<string>>, li: nat, cs: seq<Concept>)
    requires li < |bio|
    requires forall j | 0 <= j < |cs| :: 0 <= cs[j].begin <= cs[j].end < |bio[li]|
    ensures WriteGroup(bio, li, cs).Ok?
    ensures var out := WriteGroup(bio, li, cs).value;
      (forall i | 0 <= i < |bio| && i != li :: out[i] == bio[i]) && RowWritten(bio[li], out[li], cs)
  {
    if cs != [] {
      var n := |cs| - 1;
      var c := cs[n];
      assert forall j | 0 <= j < n :: cs[..n][j] == cs[j];
      LastWriterWins(bio, li, cs[..n]);
      var prev := WriteGroup(bio, li, cs[..n]).value;
      WriteRunCells(prev[li], c, Width(c));
      var out := WriteGroup(bio, li, cs).value;
      assert out == prev[li := WriteRun(prev[li], c, Width(c)).value];
      RowWrittenSnoc(bio[li], prev[li], out[li], cs);
    }
  }

  /**
   * `row` is `row0` after the concepts `cs` are written: a position no
   * concept covers is unchanged, any other holds `B-type` or `I-type` of the
   * last concept covering it.
   */
  predicate RowWritten(row0: seq<string>, row: seq<string>, cs: seq<Concept>) {
    |row| == |row0| &&
    (forall p | 0 <= p < |row0| && (forall j | 0 <= j < |cs| :: !Covers(cs[j], p)) :: row[p] == row0[p]) &&
    (forall j, p | 0 <= j < |cs| && 0 <= p < |row0| && Covers(cs[j], p) &&
        (forall j' | j < j' < |cs| :: !Covers(cs[j'], p)) ::
      row[p] == Bio(p - cs[j].begin, cs[j].tag))
  }

  /** Writing one more concept over a row keeps `RowWritten`. */
  lemma RowWrittenSnoc(row0: seq<string>, prev: seq<string>, row: seq<string>, cs: seq<Concept>)
    requires cs != [] && RowWritten(row0, prev, cs[..|cs| - 1]) && |row| == |row0|
    requires var c := cs[|cs| - 1];
      forall p | 0 <= p < |row0| :: row[p] == if Covers(c, p) then Bio(p - c.begin, c.tag) else prev[p]
    ensures RowWritten(row0, row, cs)
  {
    var n := |cs| - 1;
    assert forall j | 0 <= j < n :: cs[..n][j] == cs[j];
    forall p | 0 <= p < |row0| && (forall j | 0 <= j < |cs| :: !Covers(cs[j], p))
      ensures row[p] == row0[p]
    {
      assert !Covers(cs[n], p);
    }
    forall j, p | 0 <= j < |cs| && 0 <= p < |row0| && Covers(cs[j], p) &&
        (forall j' | j < j' < |cs| :: !Covers(cs[j'], p))
      ensures row[p] == Bio(p - cs[j].begin, cs[j].tag)
    {
      if j < n {
        assert !Covers(cs[n], p);
      }
    }
  }

  // ------------------------------------------------------ extract_chunks

  /** `f` applied along `xs` from `s`, stopping at the first error. */
  function Fold<S, A>(f: (S, A) -> Result<S>, s: S, xs: seq<A>): Result<S> {
    if xs == [] then Ok(s)
    else
      var prev :- Fold(f, s, xs[..|xs| - 1]);
      f(prev, xs[|xs| - 1])
  }

  lemma {:induction false} FoldStep<S, A>(f: (S, A) -> Result<S>, s: S, xs: seq<A>, i: nat)
    requires i < |xs| && Fold(f, s, xs[..i]).Ok?
    ensures Fold(f, s, xs[..i + 1]) == f(Fold(f, s, xs[..i]).value, xs[i])
  {
    assert xs[..i + 1][..i] == xs[..i];
  }

  /** Once the fold fails on a prefix, it fails with the same error on the whole sequence. */
  lemma {:induction false} FoldPrefixErr<S, A>(f: (S, A) -> Result<S>, s: S, xs: seq<A>, i: nat)
    requires i <= |xs| && Fold(f, s, xs[..i]).Err?
    ensures Fold(f, s, xs) == Fold(f, s, xs[..i])
    decreases |xs|
  {
    if i < |xs| {
      var n := |xs| - 1;
      assert xs[..n][..i] == xs[..i];
      FoldPrefixErr(f, s, xs[..n], i);
    } else {
      assert xs[..i] == xs;
    }
  }

  /** One parsed line appended to the list of parsed lines. */
  function ParseNext(parsed: seq<(int, Concept)>, line: string): Result<seq<(int, Concept)>> {
    var entry :- ParseCon(line);
    Ok(parsed + [entry])
  }

  /** All `.con` lines parsed in order; the first line that fails decides the error. */
  function ParseAll(lines: seq<string>): Result<seq<(int, Concept)>> {
    Fold(ParseNext, [], lines)
  }

  /** One dictionary entry: its concepts pruned, then written into line `k`. */
  function ProcessGroup(bio: seq<seq<string>>, k: int, v: seq<Concept>, removeOverlap: bool): (r: Result<seq<seq<string>>>)
    ensures r.Ok? ==> SameShape(r.value, bio)
    ensures r.Err? ==> r.error == IndexError
  {
    var kept :- Prune(v, k, |bio|, removeOverlap);
    WriteGroup(bio, k, kept)
  }

  function ProcessStep(removeOverlap: bool): (seq<seq<string>>, (int, seq<Concept>)) -> Result<seq<seq<string>>> {
    (bio, g: (int, seq<Concept>)) => ProcessGroup(bio, g.0, g.1, removeOverlap)
  }

  /** The dictionary entries processed in order. */
  function Process(bio: seq<seq<string>>, groups: seq<(int, seq<Concept>)>, removeOverlap: bool): Result<seq<seq<string>>> {
    Fold(ProcessStep(removeOverlap), bio, groups)
  }

  /** Processing keeps the number of lines and the length of each. */
  lemma {:induction false} ProcessShape(bio: seq<seq<string>>, groups: seq<(int, seq<Concept>)>, removeOverlap: bool)
    ensures Process(bio, groups, removeOverlap).Ok? ==> SameShape(Process(bio, groups, removeOverlap).value, bio)
    decreases |groups|
  {
    if groups != [] {
      ProcessShape(bio, groups[..|groups| - 1], removeOverlap);
    }
  }

  /** Processing fails only with an `IndexError`. */
  lemma {:induction false} ProcessErr(bio: seq<seq<string>>, groups: seq<(int, seq<Concept>)>, removeOverlap: bool)
    ensures Process(bio, groups, removeOverlap).Err? ==> Process(bio, groups, removeOverlap).error == IndexError
    decreases |groups|
  {
    if groups != [] {
      ProcessErr(bio, groups[..|groups| - 1], removeOverlap);
    }
  }

  /** `[x.split() for x in lines]`: the tokens of every text line. */
  function Tokens(txtLines: seq<string>): (r: seq<seq<string>>)
    ensures |r| == |txtLines|
  {
    seq(|txtLines|, i requires 0 <= i < |txtLines| => Words(txtLines[i]))
  }

  /** `[["O"] * len(x) for x in text]`. */
  function Blank(text: seq<seq<string>>): (r: seq<seq<string>>)
    ensures SameShape(r, text)
  {
    seq(|text|, i requires 0 <= i < |text| => seq(|text[i]|, _ => "O"))
  }

  /** `[" ".join(x) for x in text]`. */
  function Lines(text: seq<seq<string>>): seq<string> {
    seq(|text|, i requires 0 <= i < |text| => Join(text[i], " "))
  }

  /** `chain.from_iterable(xs)`. */
  function Flatten<T>(xs: seq<seq<T>>): seq<T> {
    if xs == [] then [] else xs[0] + Flatten(xs[1..])
  }

  lemma {:induction false} FlattenShape(a: seq<seq<string>>, b: seq<seq<string>>)
    requires SameShape(a, b)
    ensures |Flatten(a)| == |Flatten(b)|
    decreases |a|
  {
    if a != [] {
      FlattenShape(a[1..], b[1..]);
    }
  }

  /** Joining the lines and splitting again gives all the tokens in order. */
  lemma {:induction false} LinesWords(text: seq<seq<string>>)
    requires forall i, j | 0 <= i < |text| && 0 <= j < |text[i]| :: |text[i][j]| > 0 && NoSpace(text[i][j])
    ensures Words(Join(Lines(text), " ")) == Flatten(text)
    decreases |text|
  {
    if text != [] {
      WordsJoin(text[0]);
      if |text| == 1 {
        assert Flatten(text) == text[0] + [];
      } else {
        var rest := text[1..];
        assert Lines(text)[1..] == Lines(rest);
        LinesWords(rest);
        WordsAcross(Join(text[0], " "), ' ', Join(Lines(rest), " "));
      }
    }
  }

  lemma TokensWords(txtLines: seq<string>)
    ensures Words(Join(Lines(Tokens(txtLines)), " ")) == Flatten(Tokens(txtLines))
  {
    LinesWords(Tokens(txtLines));
  }

  /**
   * `extract_chunks` on the lines of the `.txt` and `.con` files: the tokens
   * of the whole text and the BIO tags, flattened.
   */
  function Extract(txtLines: seq<string>, conLines: seq<string>, removeOverlap: bool): Result<(seq<string>, seq<string>)> {
    var text := Tokens(txtLines);
    var parsed :- ParseAll(conLines);
    var bio :- Process(Blank(text), Grouped(parsed), removeOverlap);
    Ok((Words(Join(Lines(text), " ")), Flatten(bio)))
  }

  /**
   * When extraction succeeds, the tokens are those of the text lines in
   * order, and there is exactly one tag per token.
   */
  lemma ExtractShape(txtLines: seq<string>, conLines: seq<string>, removeOverlap: bool)
    ensures var r := Extract(txtLines, conLines, removeOverlap);
      r.Ok? ==> r.value.0 == Flatten(Tokens(txtLines)) && |r.value.0| == |r.value.1|
  {
    var text := Tokens(txtLines);
    TokensWords(txtLines);
    var parsed := ParseAll(conLines);
    if parsed.Ok? {
      ProcessShape(Blank(text), Grouped(parsed.value), removeOverlap);
      var bio := Process(Blank(text), Grouped(parsed.value), removeOverlap);
      if bio.Ok? {
        FlattenShape(bio.value, text);
      }
    }
  }

  lemma {:induction false} WriteGroupPrefixErr(bio: seq<seq<string>>, k: int, cs: seq<Concept>, i: nat)
    requires i <= |cs| && WriteGroup(bio, k, cs[..i]).Err?
    ensures WriteGroup(bio, k, cs).Err?
    decreases |cs|
  {
    if i < |cs| {
      var n := |cs| - 1;
      assert cs[..n][..i] == cs[..i];
      WriteGroupPrefixErr(bio, k, cs[..n], i);
    } else {
      assert cs[..i] == cs;
    }
  }

  /** The writes of one concept: `bio[line_no][begin + x]` for each `x` in `range((end - begin) + 1)`. */
  method WriteConceptAt(bio: array<seq<string>>, k: int, c: Concept) returns (ok: bool)
    modifies bio
    ensures ok <==> WriteConcept(old(bio[..]), k, c).Ok?
    ensures ok ==> bio[..] == WriteConcept(old(bio[..]), k, c).value
  {
    ghost var before := bio[..];
    ghost var li := Index(k, bio.Length);
    var n := if c.end - c.begin + 1 > 0 then c.end - c.begin + 1 else 0;
    for x := 0 to n
      invariant x == 0 ==> bio[..] == before
      invariant x > 0 ==> (li.Some? && WriteRun(before[li.value], c, x).Ok? &&
                           bio[..] == before[li.value := WriteRun(before[li.value], c, x).value])
    {
      var line := Index(k, bio.Length);
      if line.None? {
        return false;
      }
      var p := Index(c.begin + x, |bio[line.value]|);
      if p.None? {
        return false;
      }
      bio[line.value] := bio[line.value][p.value := Bio(x, c.tag)];
    }
    return true;
  }

  /** The pruning of one entry of `bio_dict`: `_check_overlap`, the removal loop, then the survivors. */
  method PruneEntry(v: seq<Concept>, k: int, lines: nat, removeOverlap: bool) returns (r: Result<seq<Concept>>)
    ensures r == Prune(v, k, lines, removeOverlap)
  {
    var overlaps := CheckOverlap(Bounds(v));
    assert forall i | 0 <= i < |overlaps| :: overlaps[i] in overlaps;
    var toRemove := RemovalList(v, overlaps, k, lines, removeOverlap);
    if toRemove.Err? {
      return Err(IndexError);
    }
    return Ok(Survivors(v, toRemove.value));
  }

  /** The surviving concepts of line `k` written in order. */
  method WriteEntry(bio: array<seq<string>>, k: int, kept: seq<Concept>) returns (ok: bool)
    modifies bio
    ensures ok <==> WriteGroup(old(bio[..]), k, kept).Ok?
    ensures ok ==> bio[..] == WriteGroup(old(bio[..]), k, kept).value
  {
    ghost var before := bio[..];
    for j := 0 to |kept|
      invariant WriteGroup(before, k, kept[..j]) == Ok(bio[..])
    {
      assert kept[..j + 1][..j] == kept[..j];
      ok := WriteConceptAt(bio, k, kept[j]);
      if !ok {
        WriteGroupPrefixErr(before, k, kept, j + 1);
        return false;
      }
    }
    assert kept[..|kept|] == kept;
    return true;
  }

  /** The first loop of `extract_chunks`: every `.con` line parsed into `bio_dict`. */
  method ReadConcepts(conLines: seq<string>) returns (r: Result<seq<(int, seq<Concept>)>>)
    ensures ParseAll(conLines).Err? ==> r == Err(ParseAll(conLines).error)
    ensures ParseAll(conLines).Ok? ==> r == Ok(Grouped(ParseAll(conLines).value))
  {
    var bioDict: seq<(int, seq<Concept>)> := [];
    ghost var parsed: seq<(int, Concept)> := [];
    for i := 0 to |conLines|
      invariant ParseAll(conLines[..i]) == Ok(parsed) && bioDict == Grouped(parsed)
    {
      FoldStep(ParseNext, [], conLines, i);
      var entry := ParseCon(conLines[i]);
      if entry.Err? {
        FoldPrefixErr(ParseNext, [], conLines, i + 1);
        return Err(entry.error);
      }
      ghost var prev := parsed;
      bioDict := AddTo(bioDict, entry.value.0, entry.value.1);
      parsed := parsed + [entry.value];
      assert parsed[..|parsed| - 1] == prev;
    }
    assert conLines[..|conLines|] == conLines;
    return Ok(bioDict);
  }

  /** The second loop of `extract_chunks`: every entry of `bio_dict` pruned and written, in order. */
  method WriteConcepts(bio: array<seq<string>>, bioDict: seq<(int, seq<Concept>)>, removeOverlap: bool) returns (ok: bool)
    modifies bio
    ensures ok <==> Process(old(bio[..]), bioDict, removeOverlap).Ok?
    ensures ok ==> bio[..] == Process(old(bio[..]), bioDict, removeOverlap).value
  {
    ghost var before := bio[..];
    for g := 0 to |bioDict|
      invariant Process(before, bioDict[..g], removeOverlap) == Ok(bio[..])
    {
      FoldStep(ProcessStep(removeOverlap), before, bioDict, g);
      var (k, v) := bioDict[g];
      var kept := PruneEntry(v, k, bio.Length, removeOverlap);
      ok := false;
      if kept.Ok? {
        ok := WriteEntry(bio, k, kept.value);
      }
      if !ok {
        FoldPrefixErr(ProcessStep(removeOverlap), before, bioDict, g + 1);
        return false;
      }
    }
    assert bioDict[..|bioDict|] == bioDict;
    return true;
  }

  /** `[["O"] * len(x) for x in text]`, one list per text line. */
  method NewBio(text: seq<seq<string>>) returns (bio: array<seq<string>>)
    ensures fresh(bio) && bio[..] == Blank(text)
  {
    bio := new seq<string>[|text|](i requires 0 <= i < |text| => seq(|text[i]|, _ => "O"));
    assert bio[..] == Blank(text);
  }

  /**
   * `extract_chunks` on the lines of the `.txt` and `.con` files: parse every
   * `.con` line into `bio_dict`, prune and write each entry, and return the
   * tokens and the tags, flattened.
   */
  method ExtractChunks(txtLines: seq<string>, conLines: seq<string>, removeOverlap: bool)
    returns (r: Result<(seq<string>, seq<string>)>)
    ensures r == Extract(txtLines, conLines, removeOverlap)
    ensures r.Ok? ==> r.value.0 == Flatten(Tokens(txtLines)) && |r.value.0| == |r.value.1|
  {
    var text := Tokens(txtLines);
    var bio := NewBio(text);
    ghost var blank := bio[..];
    var bioDict := ReadConcepts(conLines);
    if bioDict.Err? {
      return Err(bioDict.error);
    }
    ghost var groups := Grouped(ParseAll(conLines).value);
    var ok := WriteConcepts(bio, bioDict.value, removeOverlap);
    ghost var written := Process(blank, groups, removeOverlap);
    if !ok {
      ProcessErr(blank, groups, removeOverlap);
      return Err(IndexError);
    }
    r := Ok((Words(Join(Lines(text), " ")), Flatten(bio[..])));
    ExtractShape(txtLines, conLines, removeOverlap);
  }
}
