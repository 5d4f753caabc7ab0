# conch evaluation core, modelled in Dafny

conch evaluates noun-phrase chunking and concept labelling of clinical text.
It compares a predicted BIO tag sequence with a gold one. Each sequence is decoded into labelled
spans `(begin, end, label)`. The spans are matched exactly or inexactly and counted per label
as true positives, false positives and false negatives, then turned into precision, recall and F1.
A bidirectional overlap linker transfers gold labels onto predicted phrase chunks, and a labelled
chunk list is re-encoded as BIO. Preprocessing adapters build the BIO data from three sources:
i2b2 `.con` annotations, cTAKES sentence/chunk output, and the tab-separated CUBNER format.

This project models that core, module by module, as the source is organised:

| module | file | models |
|---|---|---|
| `Results` | results.dfy | Python's raised errors as `Result` values (`IndexError`, `ValueError`, `AssertionError`) |
| `PyText` | pytext.dfy | the parts of Python `str` the core relies on: `split(sep)`, `split()`, `strip()`, `join`, slicing with negative indices, `int()` on digit strings, and the `<=` order of strings |
| `Counters` | counters.dfy | `collections.Counter` / `defaultdict(int)` as an insertion-ordered list of `(key, count)` pairs |
| `Sorting` | sorting.dfy | `sorted()` over strings and dictionary items |
| `Utils` | utils.dfy | `bio_to_index`, the majority vote of `evaluate_k`, the line format of `to_conll` |
| `Sequence` | sequence.dfy | `eval_triples_exact`, `eval_inexact`, `eval_sequence`, `precision_recall_dict`, the per-document triples of `sigf_evaluation_output` |
| `Intrinsic` | intrinsic.dfy | `calculate_shared`, `overlap`, `link_chunks_to_gold`, the `allowed` index list of `label_chunks` |
| `Extrinsic` | extrinsic.dfy | the BIO rebuilding of `eval_extrinsic` |
| `I2b2Gold` | i2b2_gold.dfy | `_single_overlap`, `_check_overlap` and `extract_chunks` |
| `Ctakes` | ctakes.dfy | `get_sentences` and `get_chunks` |
| `Cubner` | cubner.dfy | `read_cubner`, `write_cubner`, `write_file` |

The code that works step by step is modelled imperatively, and each such method is proved against a
specification function:
- `calculate_shared`, `overlap` (over `touched` / `labels` arrays) and `link_chunks_to_gold`;
- the `new_bio` array of `eval_extrinsic` and the `bio` arrays of `extract_chunks`;
- the sentence array and per-sentence BIO array of `get_chunks`;
- the accumulating loops of `eval_sequence`, `eval_inexact`, `evaluate_k` and the cubner readers and writers.

The pure parts are functions, and the properties the code asserts or its documentation promises are
lemmas about them. Examples: the count identities at sequence.py:75-76 and intrinsic.py:342-343,
the decode/encode round trip, and `sorted` order.

File contents are modelled as sequences of lines; paths are map keys.
Python's exceptions are `Err` values carrying the exception kind.

## Model

| member | source | states |
|---|---|---|
| Utils.RunEnd | conch/evaluation/utils.py:9 | the `I*` part of a `BI*` match ends at the first position that is not `I`, or at the end of the string |
| Utils.ScanIsBStarts | conch/evaluation/utils.py:19 | the leftmost non-overlapping `BI*` scan equals the list of (position of each `B`, end of the `I` run after it) |
| Utils.SkipRun | conch/evaluation/utils.py:19 | skipping a run of `I` letters does not change the matches found from there on |
| Utils.BStartsMatches | conch/evaluation/utils.py:19 | every match starts at a `B` and ends where its `I` run ends |
| Utils.BStartsIncreasing | conch/evaluation/utils.py:19 | matches come in strictly increasing start order |
| Utils.BStartsComplete | conch/evaluation/utils.py:19 | every `B` position starts a match |
| Utils.BStartsDisjoint | conch/evaluation/utils.py:19 | each match ends no later than the next one begins |
| Utils.BStartsCover | conch/evaluation/utils.py:19 | a position lies inside a match iff a `B` at or before it is followed only by `I` up to it |
| Utils.JoinedFacts | conch/evaluation/utils.py:17 | with one-letter prefixes, the joined prefix string has one letter per tag, the tag's prefix |
| Utils.SplitHasSecond | conch/evaluation/utils.py:18 | `tag.split("-")` has a second piece iff the tag contains `-` |
| Utils.LabelledError | conch/evaluation/utils.py:18 | labelling matches fails only with `IndexError` |
| Utils.LabelledFacts | conch/evaluation/utils.py:18-19 | labelling succeeds iff every match start has a tag with a second `-` piece, and then yields one span per match, labelled with that piece |
| Utils.DecodeAll | conch/evaluation/utils.py:12-21 | `bio_to_index` succeeds iff every document decodes, and then gives one span list per document, in order; any failure is `IndexError` |
| Utils.DecodeView | conch/evaluation/utils.py:17-19 | a decoded document is exactly the `BI*` matches of its prefix string, each labelled by the second piece of its first tag |
| Utils.DecodeSucceeds | conch/evaluation/utils.py:17-19 | decoding succeeds iff every `B` of the joined prefix string stands at a position that has a tag and that tag contains `-` (a bare `B`, or a `B` past the last tag, raises `IndexError`); with one-letter prefixes, iff every tag with prefix `B` contains `-`; any failure is `IndexError` |
| Utils.DecodeSpans | conch/evaluation/utils.py:17-19 | each span has `begin < end <= len`, a `B` at begin, only `I` inside, is maximal (`end == len` or no `I` at end), and carries the label at begin |
| Utils.DecodeOrdered | conch/evaluation/utils.py:19 | for every decodable tag sequence, decoded spans do not overlap and come in order |
| Utils.DecodeEveryB | conch/evaluation/utils.py:19 | for every decodable tag sequence, every `B` of the joined prefix string starts exactly one span |
| Utils.DecodeDistinct | conch/evaluation/utils.py:19 | span starts strictly increase, so no span repeats |
| Utils.DecodeCover | conch/evaluation/utils.py:17-19 | a position is covered by a span iff some `B` at or before it is followed only by `I` prefixes up to it; an `I-y` after `B-x` is absorbed into the `x` span |
| Utils.LoneIOutside | conch/evaluation/utils.py:17-19 | for every decodable tag sequence, an `I` of the joined prefix string at its start, or after a letter other than `B` and `I`, lies in no span |
| Utils.DecodeEmpty | conch/evaluation/utils.py:14-21 | an empty document yields an empty span list |
| Utils.FirstIndex | conch/evaluation/utils.py:46 | the first position holding a given label |
| Utils.VoteUnique | conch/evaluation/utils.py:46 | the majority vote with first-seen tie-breaking has at most one winner |
| Utils.VoteIsVote | conch/evaluation/utils.py:46 | the first tally entry with a count above all earlier ones and at least all later ones is the vote |
| Utils.Vote | conch/evaluation/utils.py:46 | `Counter(p).most_common(1)[0][0]`: an empty list raises `IndexError`; otherwise the result occurs most often, ties going to the label seen first |
| Utils.MostCommon | conch/evaluation/utils.py:46 | `most_common(1)` on a counter: the chosen count is at least every count and strictly above every earlier one, so ties go to the key counted first; `Vote` raises the `IndexError` for an empty list before it is reached |
| Utils.VoteRow | conch/evaluation/utils.py:46 | one vote per neighbour list over its first `x` entries; `IndexError` iff some list is empty |
| Utils.EvaluateK | conch/evaluation/utils.py:44-51 | one prediction list for each `x` in `1..len(pred[0])-1`, each the votes of every item's first `x` neighbours; `IndexError` for no items or an empty neighbour list |
| Utils.ToConll | conch/evaluation/utils.py:54-60 | `AssertionError` iff the lengths differ; otherwise the text is one `_ _ gold pred` line per token pair, in order, each followed by a line break; when no tag holds a line break, splitting the text at line breaks gives back exactly those lines and a final empty piece |
| Counters.IncFacts | conch/evaluation/sequence.py:99 | `c[k] += v` raises that key's count by `v` and no other, adds `v` to the total and `k` to the keys |
| Counters.UpdateFacts | conch/evaluation/sequence.py:59-61 | `Counter.update` adds counts key by key, and the totals add |
| Counters.TallyFacts | conch/evaluation/sequence.py:83 | `Counter(list)` counts each element's occurrences, keys are exactly the elements, counts are positive and sum to the length |
| Counters.TallyPrefix | conch/evaluation/utils.py:46 | the key order of a prefix's tally is a prefix of the whole tally's key order (first-seen order) |
| Counters.GetAddPositive | conch/evaluation/sequence.py:11 | `Counter + Counter` keeps a key's sum when positive and drops it otherwise |
| Counters.GetKeepPositive | conch/evaluation/sequence.py:11 | keeping the positive entries leaves positive counts and zeroes the rest |
| Counters.SubtractFacts | conch/evaluation/sequence.py:108-111 | `{k: v - tp[k] if k in tp else v}` keeps the keys and subtracts key by key; its total is the total minus `tp` over those keys |
| Counters.MinWithFacts | conch/evaluation/sequence.py:107 | `{k: min(tp_p[k], v)}` keeps the keys of the gold-side tally and takes the smaller count per key |
| Sequence.Inter | conch/evaluation/sequence.py:83 | exactly the spans in both lists |
| Sequence.Minus | conch/evaluation/sequence.py:84-85 | exactly the spans of the first list not in the second |
| Sequence.LabelsCount | conch/evaluation/sequence.py:83 | a label's count in the label list is the number of spans carrying it |
| Sequence.Partition | conch/evaluation/sequence.py:83-85 | a span list splits into its intersection and difference with another, in total and label by label |
| Sequence.NoDupCounts | conch/evaluation/sequence.py:49-50 | without repeats, a label's span count is the size of the set of spans with that label |
| Sequence.InterSym | conch/evaluation/sequence.py:83 | set intersection is symmetric in size and per-label count |
| Sequence.EvalTriplesExact | conch/evaluation/sequence.py:81-87 | `tp`, `fp`, `fn` count the labels of gold∩pred, pred−gold, gold−pred; per label `tp+fp` is the predicted count and `tp+fn` the gold count; the totals are `|pred|` and `|gold|` |
| Sequence.ExactFacts | conch/evaluation/sequence.py:81-87 | the same partition facts for the three tallies themselves |
| Sequence.CreditedIff | conch/evaluation/sequence.py:95-99 | a span is credited iff some non-`O` tag of the other side in `[begin, end)` has last `-` piece equal to its label |
| Sequence.CreditedCounts | conch/evaluation/sequence.py:95-105 | the credited count of a label is its count in the credited list and never exceeds its span count |
| Sequence.InexactValid | conch/evaluation/sequence.py:107-111 | the keys of `tp` are the gold-side hits, those of `fn` the gold labels, those of `fp` the predicted labels |
| Sequence.InexactKey | conch/evaluation/sequence.py:107-111 | per label, `tp = min(tp_p, tp_g)` where the gold side hit, `tp+fp` is the predicted count, `tp+fn` the gold count, all non-negative |
| Sequence.InexactSums | conch/evaluation/sequence.py:107-111 | inexact totals: `Σtp+Σfp = |pred|` and `Σtp+Σfn = |gold|` |
| Sequence.EvalInexact | conch/evaluation/sequence.py:90-113 | the two crediting loops and the reconciliation return exactly `InexactTp`, `InexactFp`, `InexactFn`: per label `tp = min(tp_p, tp_g)` where the gold side hit, with the per-label and total facts above |
| Sequence.EvalDocument | conch/evaluation/sequence.py:54-70 | one document's counters are exactly those of `eval_triples_exact` in exact mode and those of `eval_inexact` otherwise; in either mode they partition its predicted and gold spans per label |
| Sequence.DecodedDistinct | conch/evaluation/sequence.py:49-50 | decoded documents hold no repeated span, so turning them into sets loses nothing |
| Sequence.AddDocument | conch/evaluation/sequence.py:58-61 | after adding a document, each label's `tp`, `fp`, `fn` are the sums over all documents so far of each document's own counters, a label is a key of a counter iff it is a key of that counter for some document so far (zero counts of inexact mode included), and the corpus identities still hold |
| Sequence.EvalCorpus | conch/evaluation/sequence.py:52-76 | per label, `tp`, `fp`, `fn` are the sums over the documents of each document's own counters, and their keys are the labels some document's counter holds; `Σtp+Σfp` = predicted spans and `Σtp+Σfn` = gold spans over the corpus, and the same label by label |
| Sequence.EvalSequence | conch/evaluation/sequence.py:38-78 | `AssertionError` for unequal document counts or lengths, `IndexError` for an empty corpus or an undecodable tag; otherwise, per label, the sums over the decoded documents of each document's own counters, keyed by the labels some document's counter holds, with the sanity identities of lines 75-76 |
| Sequence.EvalSequenceFlat | conch/evaluation/sequence.py:40-47 | a single flat sequence is evaluated as a one-document corpus: its counters, keys included, are that document's own, with the same identities |
| Sequence.AccumulatedKeys | conch/evaluation/sequence.py:54-70 | for accumulated counters, a label is a key of `tp` (`fp`, `fn`) iff it is a key of that counter of at least one document; in inexact mode this keeps labels whose count is zero (line 107) |
| Sequence.ExactCorpus | conch/evaluation/sequence.py:54-61 | in exact mode the accumulated `tp`, `fp`, `fn` of a label are the corpus totals of its spans in both documents of a pair, only in the predicted one, and only in the gold one |
| Sequence.SigfDocument | conch/evaluation/sequence.py:146-161 | a document's triple `(tp, fp+tp, fn+tp)` is `(tp, #predicted, #gold)`, with `tp` the intersection size in exact mode and the total of the `eval_inexact` true positives otherwise |
| Sequence.SigfRows | conch/evaluation/sequence.py:144-162 | one such triple per document pair, stopping at the shorter corpus |
| Sequence.SigfTriples | conch/evaluation/sequence.py:116-162 | empty input raises `IndexError`; otherwise those triples for the decoded corpora |
| Sequence.SigfTriplesFlat | conch/evaluation/sequence.py:133-162 | one flat tag sequence per side: empty input raises `IndexError`; otherwise it succeeds iff both sides decode and gives the one triple of that document pair |
| Sequence.DenominatorsFacts | conch/evaluation/sequence.py:11-12 | when every per-label denominator is non-zero, `Counter(tp) + Counter(fp)` holds `tp[k] + fp[k]` at every key of `tp` |
| Sequence.PrecisionRecallDict | conch/evaluation/sequence.py:7-35 | per-label precision `tp/(tp+fp)`, recall `tp/(tp+fn)` and F1 over the keys of `tp`; macro averages them; micro uses the summed counts |
| Sequence.MacroIsMean | conch/evaluation/sequence.py:19-23 | macro scores are the unweighted means of the per-label scores |
| Sequence.F1Between | conch/evaluation/sequence.py:16-17 | F1 lies between precision and recall |
| Sequence.PerLabelInUnit | conch/evaluation/sequence.py:14-17 | a label's precision `tp/(tp+fp)`, recall `tp/(tp+fn)` and their F1 each lie in `(0, 1]` when `tp > 0` and the other counts are non-negative |
| Sequence.MicroOverCorpus | conch/evaluation/sequence.py:25-33 | for counters such as `EvalSequence` returns (`Tallies` of the decoded corpora), micro precision is `Σtp` over the predicted spans of the corpus, recall `Σtp` over its gold spans |
| Intrinsic.SharesSymmetric | conch/evaluation/intrinsic.py:240-266 | the overlap test of `calculate_shared` is symmetric |
| Intrinsic.SharesHalfOpen | conch/evaluation/intrinsic.py:240-266 | for non-empty intervals it holds iff the half-open intervals intersect, so adjacent spans do not overlap |
| Intrinsic.SharedWith | conch/evaluation/intrinsic.py:233-268 | the indices of `b` that overlap `a`, all of them, in increasing order |
| Intrinsic.CalculateShared | conch/evaluation/intrinsic.py:212-268 | the loop returns exactly those indices |
| Intrinsic.TablesMirrored | conch/evaluation/intrinsic.py:301-320 | gold `g` is in phrase `p`'s list iff `p` is in `g`'s |
| Intrinsic.LabelCases | conch/evaluation/intrinsic.py:301-324 | a phrase chunk gets gold `g`'s label iff each is the other's only overlap; with no overlap it stays `"np"`; otherwise `"o"` |
| Intrinsic.LinkedPair | conch/evaluation/intrinsic.py:305-313 | a one-to-one pair is seen alike from both sides and the chunk takes the gold label |
| Intrinsic.Unlinked | conch/evaluation/intrinsic.py:334 | the gold chunks in no one-to-one pair, in gold order |
| Intrinsic.FirstPassNone | conch/evaluation/intrinsic.py:297 | a phrase chunk overlapped by no gold chunk keeps `"np"` after the gold pass |
| Intrinsic.FirstPassOnly | conch/evaluation/intrinsic.py:305-311 | a phrase chunk overlapped by one gold chunk gets its label if that gold chunk has one overlap, `"o"` otherwise |
| Intrinsic.ClearedIff | conch/evaluation/intrinsic.py:328-331 | the phrase pass clears `touched[h]` iff some phrase chunk with several overlaps overlaps `h` |
| Intrinsic.TouchedFinal | conch/evaluation/intrinsic.py:313-331 | after both passes `touched[h]` holds iff `h` is in a one-to-one pair |
| Intrinsic.LabelFinal | conch/evaluation/intrinsic.py:324 | the phrase pass turns a label into `"o"` exactly for chunks with several overlaps |
| Intrinsic.KeptLabels | conch/evaluation/intrinsic.py:342 | the labels outside `{"o", "np"}` |
| Intrinsic.KeptLabelsCount | conch/evaluation/intrinsic.py:342 | their number is the count of kept labels |
| Intrinsic.UnlinkedCount | conch/evaluation/intrinsic.py:334-343 | unlinked plus linked gold chunks make up all gold chunks |
| Intrinsic.CountIdentity | conch/evaluation/intrinsic.py:342-343 | kept labels plus false-negative records equal the gold count minus the linked gold chunks whose own label is `"o"` or `"np"` |
| Intrinsic.NoneLinkedBad | conch/evaluation/intrinsic.py:342-343 | that correction is zero iff no linked gold chunk is labelled `"o"` or `"np"` |
| Intrinsic.CountHolds | conch/evaluation/intrinsic.py:342-343 | the assertion holds iff no linked gold chunk carries the label `"o"` or `"np"` |
| Intrinsic.PhraseLabels | conch/evaluation/intrinsic.py:339 | `overlap` yields one label per phrase chunk |
| Intrinsic.Fill | conch/evaluation/intrinsic.py:306-311 | writing one value at listed positions changes exactly those |
| Intrinsic.GoldStep | conch/evaluation/intrinsic.py:303-313 | one gold iteration advances the first-pass labels by one gold chunk |
| Intrinsic.GoldPass | conch/evaluation/intrinsic.py:301-313 | after the gold loop `touched[h]` says whether `h` has one overlap and the labels are the first-pass labels |
| Intrinsic.PhraseStep | conch/evaluation/intrinsic.py:320-331 | one phrase iteration sets its own label and clears the touched flags of its overlaps when it has several |
| Intrinsic.PhrasePass | conch/evaluation/intrinsic.py:317-331 | after the phrase loop the labels are the final labels and `touched` marks the one-to-one pairs |
| Intrinsic.Untouched | conch/evaluation/intrinsic.py:334-336 | the records of untouched gold chunks are the false negatives, in gold order |
| Intrinsic.Overlap | conch/evaluation/intrinsic.py:271-345 | `AssertionError` iff the count check fails; otherwise the false-negative records and one label per phrase chunk |
| Intrinsic.AllLabels | conch/evaluation/intrinsic.py:386-395 | the concatenated labels, one per phrase chunk of the paired documents |
| Intrinsic.AllOkIff | conch/evaluation/intrinsic.py:386-388 | the corpus passes iff every paired document passes its count check |
| Intrinsic.LinkChunksToGold | conch/evaluation/intrinsic.py:348-397 | pairs documents by position up to the shorter list and concatenates labels and records in document order; fails with `AssertionError` iff a document fails |
| Intrinsic.Allowed | conch/evaluation/intrinsic.py:166 | exactly the positions whose label is not `"o"`, increasing; `"np"` chunks are kept |
| Extrinsic.KeptChunks | conch/evaluation/extrinsic.py:95-97 | the decoded chunks whose label is not `"np"`, relabelled, in order |
| Extrinsic.KeptSource | conch/evaluation/extrinsic.py:95-97 | every kept chunk comes from a chunk with a non-`"np"` label |
| Extrinsic.KeptIndex | conch/evaluation/extrinsic.py:95-97 | every chunk with a non-`"np"` label is kept |
| Extrinsic.Write | conch/evaluation/extrinsic.py:98-102 | writing a chunk keeps the length |
| Extrinsic.WriteChunk | conch/evaluation/extrinsic.py:98-102 | the in-place write succeeds iff the chunk fits and then writes `B-l` at begin and `I-l` after it |
| Extrinsic.Paint | conch/evaluation/extrinsic.py:95-102 | the rebuilt sequence has the input's length; it fails with `IndexError` iff some non-empty chunk ends past it |
| Extrinsic.PaintCells | conch/evaluation/extrinsic.py:95-102 | for non-overlapping chunks inside the sequence each chunk's cells hold `B-l`, `I-l`, ..., and all other cells `O` |
| Extrinsic.Rebuild | conch/evaluation/extrinsic.py:95-102 | the nested loop computes exactly that sequence |
| Extrinsic.EvalExtrinsic | conch/evaluation/extrinsic.py:83-104 | an undecodable `chunk_bio` raises `IndexError`, a label count unequal to the chunk count raises `AssertionError`, otherwise the rebuilt sequence |
| Extrinsic.KeptWellPlaced | conch/evaluation/extrinsic.py:95-97 | dropping `"np"` chunks keeps them ordered and inside the sequence |
| Extrinsic.KeptOrder | conch/evaluation/extrinsic.py:95 | kept chunks stay in the order of their source chunks |
| Extrinsic.DecodedWellPlaced | conch/evaluation/extrinsic.py:91 | for every decodable `chunk_bio`, decoded chunks are ordered, non-empty and end within the joined prefix string, which has one letter per tag when prefixes are one letter |
| Extrinsic.RoundTrip | conch/evaluation/extrinsic.py:95-102 | decoding a painted sequence of ordered chunks whose labels contain no `-` gives back exactly those chunks |
| Extrinsic.ExtrinsicCells | conch/evaluation/extrinsic.py:83-102 | the output has the length of `chunk_bio`; a non-`"np"` chunk writes `B-l` then `I-l`; other positions stay `O` |
| Extrinsic.ExtrinsicRoundTrip | conch/evaluation/extrinsic.py:91-102 | decoding the output yields exactly the kept chunks with their new labels, in order |
| I2b2Gold.SingleOverlap | conch/preprocessing/i2b2_gold.py:10-24 | for well-formed intervals, true iff the closed intervals intersect |
| I2b2Gold.SingleOverlapSymmetric | conch/preprocessing/i2b2_gold.py:10-24 | the test is symmetric for all inputs |
| I2b2Gold.RowsFacts | conch/preprocessing/i2b2_gold.py:29-33 | the pairs found from row `x0` on are exactly the overlapping `x < y`, in lexicographic order |
| I2b2Gold.Overlaps | conch/preprocessing/i2b2_gold.py:27-35 | all overlapping index pairs `x < y`, in `combinations` order |
| I2b2Gold.CheckOverlap | conch/preprocessing/i2b2_gold.py:27-35 | the loop returns exactly those pairs |
| I2b2Gold.ParseCon | conch/preprocessing/i2b2_gold.py:47-52 | a malformed line fails only with `ValueError` or `IndexError` |
| I2b2Gold.SplitPipes | conch/preprocessing/i2b2_gold.py:47 | the `||` split of a concept line gives its two halves |
| I2b2Gold.ConTag | conch/preprocessing/i2b2_gold.py:48 | `tag.split("=")[-1][1:-2]` recovers the type from `t="type"` and the line break |
| I2b2Gold.ConWords | conch/preprocessing/i2b2_gold.py:49 | the last two words are the two positions |
| I2b2Gold.PositionPieces | conch/preprocessing/i2b2_gold.py:50-52 | `line:offset` splits on `:` and parses back to its numbers |
| I2b2Gold.ParseConLine | conch/preprocessing/i2b2_gold.py:46-53 | parsing the line written for a concept gives line `L-1`, begin, end and type back |
| I2b2Gold.AddToFacts | conch/preprocessing/i2b2_gold.py:53 | appending to `bio_dict[line_no]` adds the concept to that line's list only |
| I2b2Gold.GroupedFacts | conch/preprocessing/i2b2_gold.py:44-53 | the grouping has one entry per line mentioned, holding that line's concepts in file order |
| I2b2Gold.Reprobe | conch/preprocessing/i2b2_gold.py:34 | the probe sequence of a new two-element set always ends in another of its 8 slots |
| I2b2Gold.Slots | conch/preprocessing/i2b2_gold.py:34 | the two integers of `{x, y}` occupy two different slots of the 8-slot table |
| I2b2Gold.SetOrder | conch/preprocessing/i2b2_gold.py:34 | `a, b = {x, y}` unpacks the pair as given or swapped, as given iff `x` sits in the lower slot |
| I2b2Gold.SetOrderDistinctSlots | conch/preprocessing/i2b2_gold.py:34 | integers with different remainders modulo 8 come out in the order of those remainders |
| I2b2Gold.SetOrderBelow8 | conch/preprocessing/i2b2_gold.py:34 | a pair `x < y` below 8 comes out ascending |
| I2b2Gold.SetOrderExamples | conch/preprocessing/i2b2_gold.py:34 | `{7, 8}` and `{2, 9}` come out high first, `{1, 9}` low first and `{3, 11}` high first after reprobing |
| I2b2Gold.Loser | conch/preprocessing/i2b2_gold.py:76-81 | the removed member of a pair is one of its two indices, is never longer than the other, and is the second only when the first is strictly longer |
| I2b2Gold.TieLoser | conch/preprocessing/i2b2_gold.py:60-81 | on an equal-length pair the concept the set yields first is removed: the lower index below 8, the higher one for the pair `(7, 8)` |
| I2b2Gold.LosersMembers | conch/preprocessing/i2b2_gold.py:60-81 | `to_remove` holds exactly the loser of each non-identical overlapping pair, taken in set iteration order |
| I2b2Gold.Survivors | conch/preprocessing/i2b2_gold.py:82-83 | the concepts whose index is not removed, and all of them |
| I2b2Gold.Prune | conch/preprocessing/i2b2_gold.py:57-83 | `IndexError` iff the line number is outside the text and a non-identical overlap is reported; without `remove_overlap` nothing is removed |
| I2b2Gold.LosersSeparate | conch/preprocessing/i2b2_gold.py:60-81 | every non-identical overlapping pair loses at least one member |
| I2b2Gold.SurvivorsSeparate | conch/preprocessing/i2b2_gold.py:82-83 | so no two survivors overlap unless identical |
| I2b2Gold.PrunedDisjoint | conch/preprocessing/i2b2_gold.py:57-83 | after pruning with `remove_overlap`, surviving concepts overlap only when identical |
| I2b2Gold.RemovalList | conch/preprocessing/i2b2_gold.py:58-82 | the loop fails exactly as `Prune` does and otherwise lists the losers, or nothing without `remove_overlap` |
| I2b2Gold.WriteRun | conch/preprocessing/i2b2_gold.py:86-91 | writing `n` cells keeps the row length; `IndexError` iff a written index is outside the row, with Python's negative indices |
| I2b2Gold.WriteRunCells | conch/preprocessing/i2b2_gold.py:86-91 | inside the row it writes `B-t` at begin, `I-t` after it, and changes nothing else |
| I2b2Gold.WriteConcept | conch/preprocessing/i2b2_gold.py:85-91 | writing one concept keeps every row's length |
| I2b2Gold.WriteGroup | conch/preprocessing/i2b2_gold.py:85-91 | writing a line's concepts keeps every row's length |
| I2b2Gold.LastWriterWins | conch/preprocessing/i2b2_gold.py:85-91 | inclusive end: each covered position holds `B-t`/`I-t` of the last concept covering it; uncovered positions and other lines are unchanged |
| I2b2Gold.ProcessGroup | conch/preprocessing/i2b2_gold.py:55-91 | one line's pruning and writing keeps the shape and fails only with `IndexError` |
| I2b2Gold.ProcessShape | conch/preprocessing/i2b2_gold.py:55-91 | processing all lines keeps every row's length |
| I2b2Gold.ProcessErr | conch/preprocessing/i2b2_gold.py:55-91 | processing fails only with `IndexError` |
| I2b2Gold.Tokens | conch/preprocessing/i2b2_gold.py:41 | one token list per text line |
| I2b2Gold.Blank | conch/preprocessing/i2b2_gold.py:42 | one `O` per token |
| I2b2Gold.FlattenShape | conch/preprocessing/i2b2_gold.py:94 | rows of equal lengths flatten to equal lengths |
| I2b2Gold.LinesWords | conch/preprocessing/i2b2_gold.py:93 | joining tokens with spaces and splitting again gives the flat token list |
| I2b2Gold.TokensWords | conch/preprocessing/i2b2_gold.py:93 | the same for the tokens of the text lines |
| I2b2Gold.ExtractShape | conch/preprocessing/i2b2_gold.py:38-94 | on success the token list is the flattened tokens and has the length of the BIO list |
| I2b2Gold.NewBio | conch/preprocessing/i2b2_gold.py:42 | a fresh array holding one `O` row per text line |
| I2b2Gold.ReadConcepts | conch/preprocessing/i2b2_gold.py:44-53 | the parsing loop fails as the first bad line does, otherwise groups the concepts by line |
| I2b2Gold.PruneEntry | conch/preprocessing/i2b2_gold.py:57-83 | the per-line pruning step computes `Prune` |
| I2b2Gold.WriteConceptAt | conch/preprocessing/i2b2_gold.py:86-91 | the in-place write succeeds iff `WriteConcept` does, and leaves its result |
| I2b2Gold.WriteEntry | conch/preprocessing/i2b2_gold.py:85-91 | the in-place writes of one line's concepts agree with `WriteGroup` |
| I2b2Gold.WriteConcepts | conch/preprocessing/i2b2_gold.py:55-91 | the loop over `bio_dict` agrees with `Process` |
| I2b2Gold.ExtractChunks | conch/preprocessing/i2b2_gold.py:38-94 | `extract_chunks` computes `Extract`, and on success tokens and tags have equal length |
| Ctakes.NonEmpty | conch/preprocessing/ctakes.py:22-25 | the non-empty lines, in order |
| Ctakes.GetSentences | conch/preprocessing/ctakes.py:17-32 | the loop builds exactly the sentence table `Sentences(text)` |
| Ctakes.SentencesLines | conch/preprocessing/ctakes.py:22-30 | one entry per non-empty line, key `prev + len(line) + 1`, no chunks yet |
| Ctakes.SentencesChain | conch/preprocessing/ctakes.py:20-30 | the first entry begins at 0, each further one at the previous key, and the last key is the final `prev` |
| Ctakes.SentencesKeys | conch/preprocessing/ctakes.py:27-30 | keys strictly increase |
| Ctakes.EmptyLineShifts | conch/preprocessing/ctakes.py:24-29 | an empty line does not advance `prev`: for `"\nab"` the only entry's text is `"\na"`, not `"ab"` |
| Ctakes.SentencesAreLinesOf | conch/preprocessing/ctakes.py:22-29 | while no earlier line is empty, each entry's text is its line |
| Ctakes.SentencesAreLines | conch/preprocessing/ctakes.py:22-29 | for a text without blank lines, entry texts are exactly the lines |
| Ctakes.FirstAfter | conch/preprocessing/ctakes.py:57-62 | the first sentence in key order whose key exceeds the chunk's begin, or none |
| Ctakes.FindSentence | conch/preprocessing/ctakes.py:57-62 | the key loop with its `break` finds exactly that sentence |
| Ctakes.Place | conch/preprocessing/ctakes.py:45-62 | placing one annotation keeps the table size |
| Ctakes.PlaceAll | conch/preprocessing/ctakes.py:43-62 | placing all annotations keeps the table size |
| Ctakes.PlaceChunks | conch/preprocessing/ctakes.py:43-62 | the in-place appends compute `PlaceAll` |
| Ctakes.FirstAfterKeys | conch/preprocessing/ctakes.py:57-61 | appending chunks does not change which sentence a later chunk goes to |
| Ctakes.PlaceAllChunks | conch/preprocessing/ctakes.py:43-62 | each sentence keeps its offsets and text and gains, in order, exactly the `NP` chunks whose first key above their begin is its own; other chunk types and chunks past every key are dropped |
| Ctakes.MarkRun | conch/preprocessing/ctakes.py:78-87 | marking a chunk keeps the BIO length |
| Ctakes.MarkAll | conch/preprocessing/ctakes.py:70-87 | marking all chunks keeps the BIO length |
| Ctakes.LastCover | conch/preprocessing/ctakes.py:70-87 | the last chunk whose token range covers a position, or none |
| Ctakes.LastChunkWins | conch/preprocessing/ctakes.py:70-87 | each position holds `B-NP`/`I-NP` relative to the start of the last chunk covering it; other positions keep their tag |
| Ctakes.MarkRunPast | conch/preprocessing/ctakes.py:85-87 | stopping at the end of the sentence writes the same as going on |
| Ctakes.MarkChunk | conch/preprocessing/ctakes.py:78-87 | the write loop with its `IndexError` break computes `MarkRun` |
| Ctakes.MarkSentence | conch/preprocessing/ctakes.py:66-89 | one sentence's BIO is one `O` per token, marked by its chunks in order |
| Ctakes.AllBio | conch/preprocessing/ctakes.py:90-91 | the concatenated BIO has one tag per concatenated token |
| Ctakes.GetChunks | conch/preprocessing/ctakes.py:35-95 | places the chunks in the table and returns the concatenated tokens and tags of all sentences in key order |
| Ctakes.ChunkDocument | conch/preprocessing/ctakes.py:35-95 | `get_chunks` after `get_sentences`: tokens and tags have equal length |
| Ctakes.WordsJoinLines | conch/preprocessing/ctakes.py:90 | the whitespace tokens of the joined lines are those of the lines, concatenated |
| Ctakes.AllTokensTexts | conch/preprocessing/ctakes.py:90 | the output tokens are the tokens of the sentence texts, in order |
| Ctakes.ChunkedTokens | conch/preprocessing/ctakes.py:90-91 | for a text without blank lines the output tokens are exactly `text.split()` and there is one tag per token |
| Cubner.ReadCubner | conch/preprocessing/cubner.py:6-26 | `words` and `tags` have equal length and pair up as the accepted lines' first and third fields |
| Cubner.RecordsAppend | conch/preprocessing/cubner.py:12-23 | reading concatenated line lists concatenates the records |
| Cubner.BlankLine | conch/preprocessing/cubner.py:14-16 | a line that is empty after stripping gives no record |
| Cubner.StripLine | conch/preprocessing/cubner.py:14 | stripping a line without edge whitespace removes just its line break |
| Cubner.SplitFields | conch/preprocessing/cubner.py:18 | three tab-free fields joined by tabs split back into them |
| Cubner.ReadLine | conch/preprocessing/cubner.py:14-23 | a well-formed three-field line gives its first and third fields |
| Cubner.RecordsAll | conch/preprocessing/cubner.py:12-23 | lines that each give one record give those records in order |
| Cubner.ReadRendered | conch/preprocessing/cubner.py:12-26 | reading the rendered lines of well-formed token triples gives back their words and tags |
| Cubner.TokenLines | conch/preprocessing/cubner.py:33-35 | one `word\ttag` line per token, up to the shorter of the two lists |
| Cubner.SortedDocs | conch/preprocessing/cubner.py:32 | one document per dictionary item |
| Cubner.SortedDocsOrder | conch/preprocessing/cubner.py:32 | the documents are the items' values in ascending key order |
| Cubner.CubnerOutput | conch/preprocessing/cubner.py:29-36 | empty data raises `IndexError`; otherwise the text of the documents' lines |
| Cubner.WriteDoc | conch/preprocessing/cubner.py:33-36 | one document's lines followed by an empty line |
| Cubner.WriteCubner | conch/preprocessing/cubner.py:29-36 | the writing loop produces exactly `CubnerOutput` |
| Cubner.CubnerLines | conch/preprocessing/cubner.py:32-36 | split at line breaks, the output is each sorted document's token lines then one empty line |
| Cubner.TokenLineFields | conch/preprocessing/cubner.py:35 | a written token line splits at the tab into word and tag |
| Cubner.WrittenLineSkipped | conch/preprocessing/cubner.py:14-20 | a line `word\ttag\n` as the writer emits it (line 35), with tab-free word and tag, never has the three fields the reader asks for, so the reader skips it |
| Cubner.SortedReadable | conch/preprocessing/cubner.py:42-43 | sorting the paths keeps them readable |
| Cubner.FileLines | conch/preprocessing/cubner.py:42-46 | one output line per path |
| Cubner.WriteLines | conch/preprocessing/cubner.py:43-45 | one file's stripped lines, each followed by a space |
| Cubner.WriteFile | conch/preprocessing/cubner.py:39-46 | the writing loop produces exactly `FileOutput` |
| Cubner.FileLineEnd | conch/preprocessing/cubner.py:45 | a written file line is empty or ends in a space |
| Cubner.FileLineWords | conch/preprocessing/cubner.py:43-45 | the whitespace tokens of a written line are those of the file's lines |
| Cubner.FileOutputLines | conch/preprocessing/cubner.py:39-46 | files appear in sorted path order, each as one line holding its tokens, and the output ends with a line break |
| Sorting.MinIndex | conch/preprocessing/cubner.py:42 | a position of a least element |
| Sorting.SortBy | conch/preprocessing/cubner.py:42 | `sorted` returns a permutation of its input in ascending order |
| Sorting.SortedUnique | conch/preprocessing/cubner.py:32 | two ascending permutations agree when equal keys mean equal elements, so the order is the one `sorted` gives |
| PyText.Split | conch/evaluation/utils.py:17 | `split` always returns at least one piece |
| PyText.JoinSplit | conch/preprocessing/ctakes.py:22 | joining the pieces of a split restores the string |
| PyText.SplitJoin | conch/preprocessing/cubner.py:18 | splitting a join of separator-free pieces gives the pieces back |
| PyText.SplitPartsFree | conch/evaluation/utils.py:18 | no piece of a split contains the separator |
| PyText.TagPieces | conch/evaluation/utils.py:17-18 | `"p-l".split("-")` is `["p", "l"]` when `l` has no `-` |
| PyText.Words | conch/preprocessing/ctakes.py:68 | `split()` gives non-empty tokens without whitespace |
| PyText.WordsJoin | conch/preprocessing/i2b2_gold.py:93 | splitting space-joined tokens gives them back |
| PyText.WordsAcross | conch/preprocessing/ctakes.py:90 | a whitespace character separates the tokens of its two sides |
| PyText.Strip | conch/preprocessing/cubner.py:14 | `strip` leaves no whitespace at either end |
| PyText.WordsStrip | conch/preprocessing/cubner.py:45 | stripping does not change the tokens |
| PyText.Slice | conch/preprocessing/ctakes.py:29 | a slice is never longer than the string |
| PyText.Index | conch/preprocessing/i2b2_gold.py:91 | a Python index is valid iff `-n <= i < n`, and then names `i` or `i + n` |
| PyText.ParseInt | conch/preprocessing/i2b2_gold.py:52 | `int()` fails only with `ValueError` |
| PyText.LexLeTotal | conch/preprocessing/cubner.py:42 | string order is total |
| PyText.LexLeTrans | conch/preprocessing/cubner.py:42 | string order is transitive |
| PyText.LexLeAntisym | conch/preprocessing/cubner.py:42 | string order is antisymmetric |

## Left out

- conch/conch.py, the Reach / numpy nearest-neighbour code of conch/evaluation/intrinsic.py (`produce_eval`, `evaluate_transfer`, `evaluate_intrinsic`, the Reach construction in `label_chunks`) and `eval_extrinsic_label` are foreign calls into vector libraries. Their label lists are inputs here.
- The sklearn call `precision_recall_fscore_support` in `evaluate_k`. The model stops at the voted prediction lists.
- Floating point. Scores are exact `real` ratios. Division by zero is a precondition (`PerLabelDefined`, `MicroDefined`); the source raises `ZeroDivisionError` there.
- `average` strings other than `None`, `"macro"` and `"micro"`. There the source returns unbound names.
- File and XML I/O: `open`, writing, `glob`, `json`, and the lxml parsing of conch/preprocessing/ctakes.py:98-131 (`process`). File contents are sequences of lines, and directory listings are inputs.
- In `get_chunks`, chunk annotations are given as `(chunkType, begin, end)` with integer offsets. A missing or non-numeric attribute is not modelled.
- The `print` diagnostics are not modelled. They include the counters `skipped`, `done` and `true` of `get_chunks`, `count` and `index` of `read_cubner` (never returned), and the warnings of `extract_chunks`. The `IndexError` the warning's `text[k]` raises is modelled.
- `sigf_evaluation_output` writes triples to a file. `SigfTriples` returns them instead.
- I2b2Gold.SetOrder: `_check_overlap` returns each overlapping pair as a set `{x, y}`, and `for a, b in overlaps` unpacks it in set iteration order. The model follows CPython's layout for a new two-element set of integers: an 8-slot table, `hash(i) == i` (true for indices below 2^61 - 1), and the perturbed reprobe. This is CPython behaviour, not a language guarantee; other Python implementations may order the pair differently. On an equal-length tie it decides which index `Losers`, `RemovalList` and `Prune` remove: the lower one below 8, but for example the higher one for `{7, 8}` (`TieLoser`).
- Python's `int()` also accepts non-ASCII digits; `ParseInt` accepts ASCII digits, an optional sign, surrounding whitespace and `_` between digits.
- `eval_sequence` and `sigf_evaluation_output` decide between one flat sequence and a list of documents with `isinstance`. `eval_sequence` wraps both sides when gold is flat; `sigf_evaluation_output` tests and wraps each side on its own. The model offers the nested and the both-flat shapes as separate methods (`EvalSequence` and `EvalSequenceFlat`, `SigfTriples` and `SigfTriplesFlat`). Mixed input, one side flat and the other nested, is not modelled for either.
- I2b2Gold.ParseConLine: the `.con` round trip is proved for text without `|` and types without `=`.
- Cubner.FileOutputLines: stated for file lines that hold no line break once stripped.
- Ctakes.ChunkedTokens: stated for texts without blank lines. With a blank line the offsets drift, as `EmptyLineShifts` shows.
- Utils.DecodeView, Utils.DecodeSpans, Utils.DecodeCover: these hold when every tag's prefix is one letter. The decoder itself is modelled on the literal joined prefix string for all inputs.
- Extrinsic.ExtrinsicCells, Extrinsic.ExtrinsicRoundTrip: stated only when every tag prefix is one letter. With longer prefixes the joined prefix string is longer than the tags, a decoded chunk can end past them, and `Paint` then raises `IndexError`; `EvalExtrinsic` itself is modelled, errors included, for all inputs.

## Where the code and its description differ

These are modelled as the code is written:
- A lone `I` (at the start of the prefix string or after a letter such as `O`) is in no span, because the pattern is `BI*` (`LoneIOutside`). It is not treated as a `B`.
- A `B` tag without `-` raises `IndexError`, and so does a `B` of the joined prefix string at a position past the last tag, which multi-letter prefixes make possible (`DecodeSucceeds`).
- F1 has no zero convention. Precision + recall = 0 raises, and is a precondition here.
- `calculate_shared` excludes token-adjacent spans (`SharesHalfOpen`).
- In `get_sentences` an empty line does not advance the offset, so later sentence texts shift (`EmptyLineShifts`).
- `write_cubner` on empty data raises `IndexError` from indexing the empty `zip` (`CubnerOutput`).
- `write_cubner` writes two tab-separated columns, while `read_cubner` accepts only three-column lines. Output of the writer is therefore skipped by the reader (`WrittenLineSkipped`).
