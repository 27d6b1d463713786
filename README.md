# pycorrector, modelled in Dafny

A model of pycorrector's correction pipelines, with proofs of their
contracts. pycorrector is a Chinese spelling corrector. An external detector
reports suspect spans `(item, begin, end, kind)` of a sentence, and the
correctors decide what to replace them with.

- **Statistical corrector** (`pycorrector/corrector.py`). It does three things:
  - Loads the same-pinyin and same-stroke confusion tables.
  - Generates candidates for a suspect word in three tiers:
    - whole-word homophones and the custom confusion entry;
    - one-character substitutions of one- and two-character words;
    - for longer words, substitution of the middle character and homophones of the prefix and of the suffix.
  - Ranks the candidates with a language model under a margin of 2. It processes spans by descending end index, splices each change into the sentence and returns the edit log sorted by begin index. Optionally it also computes the detection and correction labels against a reference sentence.
- **Address corrector** (`pycorrector/address_corrector.py`). From a reference address it derives the plausible place names: province aliases, city and area with and without their administrative suffix, and road, estate and street names. It then slides a window of each name's length over the sentence and keeps windows whose pinyin-plus-character edit distance is below a threshold. Finally it applies the closest non-overlapping matches greedily.
- **BERT corrector** (`pycorrector/bert/bert_corrector.py`). It frames the sentence with `[CLS]`/`[SEP]`, masks the span and zero-pads the id lists. It re-predicts character spans with a masked language model, one span at a time and in ascending end order.

Files:

| file | module | contents |
|---|---|---|
| `wrappers.dfy` | `Wrappers` | `Option`, `Result` with the two Python errors raised by the core (`IndexError`, `KeyError`), `Min`, `Max` |
| `pystr.dfy` | `PyStr` | the `str` operations used: `strip`, `split`/`join`, clamped slicing, `set(list(s))`, `replace` |
| `sorting.dfy` | `Sorting` | `sorted(key=...)` as a stable insertion sort; permutation and repetition-free facts |
| `confusion.dfy` | `Confusion` | `load_same_pinyin`, `load_same_stroke`, `get_same_*`, `_confusion_char_set` |
| `corrector.dfy` | `Corrector` | `known`, `_confusion_word_set`, `_confusion_custom_set`, `generate_items`, `lm_correct_item`, `correct` with golden labels |
| `address.dfy` | `Address` | `reverse_dict_with_not_unique_value`, `AddressCorrector.correct`, `_get_possible_parts`, `_split_address` |
| `bert.dfy` | `Bert` | `convert_sentence_to_features`, `check_vocab_has_all_token`, `bert_lm_infer`, `BertCorrector.correct` |

How foreign calls are modelled:

- Library calls are fields of a state value and are treated as deterministic:
  - `CorrectorState`: `edit_distance_word`, `lazy_pinyin`, `is_chinese_string`, `word_frequency`, `ppl_score`;
  - `Phonetics`: `pinyin(style=TONE3)`, `Levenshtein.distance`;
  - `BertModel`: the tokenizer's vocabulary and id maps, and the model's argmax at a position.
- The detector's spans, the `cpca.transform` parse and the `findall` tuples of the address-splitting pattern are given inputs.
- Python dicts that are filled in a loop are maps, or ordered sequences of pairs where insertion order matters.
- Python sets are Dafny sets.
- A Python exception the code can raise is an `Err` result.

## Model

| member | source | states |
|---|---|---|
| Confusion.LoadSamePinyin | pycorrector/corrector.py:37-55 | The line loop builds exactly `SamePinyinTable`: each kept line binds its key to its value, and later lines overwrite earlier ones |
| Confusion.PinyinEntrySpec | pycorrector/corrector.py:43-54 | A line is kept iff, once stripped, it does not start with `#`, has at least 3 fields, a key of at most one character and at least one character in fields 2 and 3. The value is exactly the set of characters of fields 2 and 3 |
| Confusion.PinyinKeyIsOneChar | pycorrector/corrector.py:43-52 | With a whitespace separator (the default tab), a kept key is exactly one character |
| Confusion.UpsertLastWins | pycorrector/corrector.py:54 | Dict assignment in a loop: a key is bound to the value of its last entry |
| Confusion.PinyinTableLookup | pycorrector/corrector.py:41-54 | A kept line's key maps to that line's value unless a later kept line has the same key |
| Confusion.PinyinTableAbsent | pycorrector/corrector.py:41-54 | A character that is the key of no kept line is not in the table |
| Confusion.LoadSameStroke | pycorrector/corrector.py:65-78 | The line loop builds exactly `SameStrokeTable` |
| Confusion.RegisterLine | pycorrector/corrector.py:76-77 | One line's all-pairs registration, entry by entry |
| Confusion.StrokeLineFrame | pycorrector/corrector.py:76-77 | Registering a line adds exactly its fields as keys and leaves every other entry untouched |
| Confusion.StrokeTableDomain | pycorrector/corrector.py:69-77 | `c` is a key iff it is a field of some non-comment line with at least 2 fields |
| Confusion.StrokeTableLastWins | pycorrector/corrector.py:74-77 | A field maps to the set of the other fields of the last line containing it. A later line overwrites the set and does not merge into it |
| Confusion.Lookup | pycorrector/corrector.py:124-140 | `dict.get(c, set())`: the table's set when `c` is a key, empty otherwise |
| Confusion.ConfusionCharSet | pycorrector/corrector.py:150-151 | `x` is in the confusion set of `c` iff it is in `c`'s same-pinyin set or `c`'s same-stroke set |
| Confusion.UnlistedHasNoConfusion | pycorrector/corrector.py:124-151 | A character on no kept line of either file has an empty confusion set |
| Confusion.GraphicSymmetry | pycorrector/corrector.py:74-77 | Two different characters on one same-stroke line confuse with each other, unless a later line re-registers the first |
| Corrector.Known | pycorrector/corrector.py:142-148 | The result is the subset of `words` that the word-frequency dictionary contains |
| Corrector.ConfusionCustomSet | pycorrector/corrector.py:162-166 | At most one element. Empty iff the word has no custom entry, and otherwise holds that entry |
| Corrector.ConfusionWordSet | pycorrector/corrector.py:153-160 | `w` is in the result iff `edit_distance_word` proposes it, the dictionary knows it and its `lazy_pinyin` equals the word's |
| Corrector.FirstOrderCandidates | pycorrector/corrector.py:179-182 | First tier: the word's homophones plus its custom correction |
| Corrector.SecondOrderCandidates | pycorrector/corrector.py:183-194 | Second tier: the non-empty one-character substitutions of a one- or two-character word |
| Corrector.ThirdOrderCandidates | pycorrector/corrector.py:195-206 | Third tier: the middle substitutions of a longer word, and its prefix and suffix homophones completed with the removed character |
| Corrector.CollectCandidates | pycorrector/corrector.py:176-209 | The deduplicated candidate pool is the union of the three tiers |
| Corrector.SamePinyinSingleChars | pycorrector/corrector.py:41-54 | Every value of a loaded same-pinyin table is a set of single characters |
| Corrector.SecondOrderShape | pycorrector/corrector.py:184-194 | With single-character tables, a second-tier candidate has the word's length (1 or 2). It differs from the word at one position (position 0 for a single character), by a confusion character of the character there |
| Corrector.MiddleShape | pycorrector/corrector.py:195-198 | A middle substitution differs from the word only at position 1, by a confusion character of `word[1]` |
| Corrector.ThirdOrderShape | pycorrector/corrector.py:195-206 | A third-tier candidate belongs to a word longer than 2 and is one of three forms: `word[0] + c + word[2:]`, a homophone of `word[:-1]` followed by `word[-1]`, or `word[0]` followed by a homophone of `word[1:]` |
| Corrector.KeepChinese | pycorrector/corrector.py:209-210 | The list holds exactly the Chinese strings of the pool, each once |
| Corrector.DescendingPrefix | pycorrector/corrector.py:211-214 | A prefix of a frequency-descending list is descending, and nothing left out is more frequent than anything kept |
| Corrector.RankedPrefix | pycorrector/corrector.py:209-214 | The first `min(n, n // fraction + 1)` items of the sorted Chinese candidates are repetition-free Chinese candidates in descending frequency. No candidate left out is more frequent than one kept, and with `fraction = 1` all are kept |
| Corrector.RankCandidates | pycorrector/corrector.py:209-214 | Filter, sort and truncate, with the same guarantees as `RankedPrefix` |
| Corrector.GenerateItems | pycorrector/corrector.py:169-214 | Distinct Chinese candidates of the word in descending frequency, of length `min(n, n // fraction + 1)` where `n` counts all Chinese candidates. Nothing left out is more frequent, and with `fraction = 1` every candidate is returned |
| Corrector.Extend | pycorrector/corrector.py:220-221 | Appends `item` only when absent: the list unchanged when it holds `item`, and otherwise the list followed by `item` |
| Corrector.Scores | pycorrector/corrector.py:222-228 | One score per candidate, the language-model score of the candidate in its context |
| Corrector.ArgMin | pycorrector/corrector.py:229 | `np.argmin`: the first index of a minimal score |
| Corrector.LmCorrectItem | pycorrector/corrector.py:216-235 | The result is a member of the extended list. It is `item` when `ori_score <= min_score + 2` and otherwise the first minimal candidate. A change beats the original by more than 2, scores no worse than any candidate, and every candidate listed before it scores strictly worse (`FirstBest`). Any candidate that beats the original by more than 2 forces a change |
| Corrector.MarginChoice | pycorrector/corrector.py:229-235 | For the first minimum of the extended list: a change beats the original by more than 2, scores no worse than any candidate, and every candidate before it scores strictly worse. A candidate that beats the original by more than 2 forces a change |
| Corrector.ReplaySnoc | pycorrector/corrector.py:300-301 | Each logged edit splices its replacement between `sentence[:begin]` and `sentence[end:]` of the current sentence |
| Corrector.ReplayKeepsPrefix | pycorrector/corrector.py:271-301 | Edits that start at or after position `p` leave the first `p` characters unchanged |
| Corrector.CorrectItem | pycorrector/corrector.py:279-298 | A confusion span takes its custom correction (KeyError without one), and a non-Chinese span is skipped. A Chinese span changes iff some Chinese candidate beats the item by more than the margin in the sentence as it reads. It then changes to a candidate that beats it and scores no worse than any other, and is the most frequent of those with its score, since `np.argmin` takes the first minimum of the frequency-sorted list (`Decision`) |
| Corrector.LmDecision | pycorrector/corrector.py:295-298 | For the generated candidates, sorted by descending frequency, the margin facts and the first-minimum position of `lm_correct_item` give the `Decision` rule for a Chinese non-confusion span, including the frequency tie-break among equally scored candidates |
| Corrector.FirstBestMostFrequent | pycorrector/corrector.py:211-235 | In a list sorted by descending frequency, the first best-scoring entry is at least as frequent as every entry with the same score |
| Corrector.DecisionPrefersFrequent | pycorrector/corrector.py:211-235 | Of two candidates with the same score, the `Decision` rule never picks the less frequent one |
| Corrector.CorrectItemWith | pycorrector/corrector.py:279-298 | The same turn with the candidate generator as a parameter: KeyError iff the custom entry is missing, and otherwise the outcome follows `Decision` over that generator's candidates, frequency tie-break included |
| Corrector.ProcessSpan | pycorrector/corrector.py:279-304 | One loop turn reports the span's KeyError, or extends the trace: the span's outcome is its `Decision` (margin and frequency tie-break) in the sentence as the earlier edits left it, and the log grows by its edit exactly when the outcome is a change |
| Corrector.ProcessSpans | pycorrector/corrector.py:279-304 | The loop stops with KeyError iff a confusion span lacks a custom correction. Otherwise every span's outcome is its `Decision` (margin and frequency tie-break) in the sentence it met, and the log is exactly the changes in processing order |
| Corrector.ApplyEdits | pycorrector/corrector.py:279-304 | Over spans in descending end order: the sentence is the log replayed, the log's ends descend, and every entry is a real change backed by a span. Every span's outcome is its `Decision` in the sentence as it then read (a Chinese span with a candidate beating it by more than the margin is changed, to the most frequent of the best-scoring candidates), and the log is exactly those changes |
| Corrector.Correct | pycorrector/corrector.py:269-309 | KeyError iff a confusion span lacks a custom correction, and an empty detection gives `(sentence, [])`. The processing order is the stable descending-end sort of the detection. Otherwise each span's outcome is its `Decision` in the sentence as the earlier edits left it (the margin rule in both directions, and the most frequent of the best-scoring candidates), every change is in the detail, and replaying the changes gives the sentence. The detail is the changes stably sorted by begin: edits with the same begin keep their processing order. `Corrected` gathers these facts |
| Corrector.LogMembers | pycorrector/corrector.py:300-304 | An edit is in the log iff some span's outcome was a change to exactly that edit |
| Corrector.ChangesLogged | pycorrector/corrector.py:300-304 | Every change is logged |
| Corrector.TraceStep | pycorrector/corrector.py:279-304 | Adding the next span's `Decision` in the sentence the log has built extends the trace, and the log grows by its edit exactly when it is a change |
| Corrector.TracedOracle | pycorrector/corrector.py:295 | A trace over any generator that agrees with `generate_items` is a trace over the Chinese candidates |
| Corrector.MismatchLabels | pycorrector/corrector.py:264 | `zip` labels: length `min(|x|, |y|)`, 1 exactly where the strings differ |
| Corrector.DetectionLabels | pycorrector/corrector.py:273-277 | `phase1_pred` is 1 exactly at the positions covered by a span. IndexError iff a non-empty span ends past the labels |
| Corrector.CorrectWithGolden | pycorrector/corrector.py:253-309 | With a reference sentence: the label IndexError comes before the loop's KeyError, and the three label lists are as above (`phase2_pred` over the corrected sentence). With or without one, the returned sentence and detail are those of a run of the correction loop (`Corrected`): each span's `Decision`, frequency tie-break included, in processing order, the sentence the replayed changes, the detail the changes stably sorted by begin |
| Address.ReverseDict | pycorrector/address_corrector.py:11-19 | The result's keys are exactly the values of `dic`, and each maps to the keys with that value in insertion order |
| Address.KeysWithValueMembers | pycorrector/address_corrector.py:11-19 | `k` is listed under `v` iff `(k, v)` is an entry of `dic` |
| Address.ReverseDictNonEmpty | pycorrector/address_corrector.py:15-18 | No list of the result is empty |
| Address.ReverseDictKeyOnce | pycorrector/address_corrector.py:13-18 | With unique keys, every key appears exactly once under its own value and nowhere else |
| Address.BucketByLength | pycorrector/address_corrector.py:38-43 | Buckets exist exactly for the lengths present. Bucket `n` is the items of length `n` in order, and the size list is the distinct lengths in order of first occurrence (the dict's key order) |
| Address.BucketedGrow | pycorrector/address_corrector.py:40-41 | An item whose length has a bucket is appended to it, and the key order is unchanged |
| Address.BucketedNew | pycorrector/address_corrector.py:42-43 | An item of a new length opens a bucket holding it, and its length becomes the last key |
| Address.BucketMembers | pycorrector/address_corrector.py:38-43 | Each item lands, with its multiplicity, in its own length's bucket only |
| Address.BucketWidths | pycorrector/address_corrector.py:56 | Every word of bucket `n` has length `n`, so the length assertion holds |
| Address.PinyinDistance | pycorrector/address_corrector.py:58-65 | Sums the reading distances over the `zip` of the two pinyin lists |
| Address.ScanWindow | pycorrector/address_corrector.py:51-73 | At window start `i`, records `CloseAt`: one entry per name of the bucket below the threshold, in bucket order, and exactly those names |
| Address.CompareWord | pycorrector/address_corrector.py:56-73 | One name against the window: the entry `MatchAt` describes when the pinyin distance plus three times the character distance is below the threshold, nothing otherwise |
| Address.CloseAtSound | pycorrector/address_corrector.py:55-73 | Each entry at window `i` is the entry of a name of the bucket, followed by a character, and below the threshold |
| Address.CloseAtComplete | pycorrector/address_corrector.py:55-73 | Every name of the bucket below the threshold at window `i` has its entry |
| Address.CloseUpToSound | pycorrector/address_corrector.py:48-73 | Each entry of the first `n` windows starts before `n`, is followed by a character and is below the threshold |
| Address.CloseUpToComplete | pycorrector/address_corrector.py:48-73 | Every close window starting before `n` and followed by a character is recorded |
| Address.ScanSize | pycorrector/address_corrector.py:46-73 | Records every close window followed by at least one character, and only those (the strict `>=` break skips a window ending at the last character) |
| Address.Scan | pycorrector/address_corrector.py:45-73 | `distances_result` before sorting is exactly `ScanOrder`: widths in key order, windows left to right, names in bucket order |
| Address.ScanOrderSound | pycorrector/address_corrector.py:45-73 | Each entry of the scan is a close window, followed by a character, of a name of a listed width |
| Address.ScanOrderComplete | pycorrector/address_corrector.py:45-73 | Every close window, followed by a character, of a name of a listed width is in the scan |
| Address.ScanRecorded | pycorrector/address_corrector.py:38-74 | After sorting, every match is a close window of a candidate name |
| Address.ScanFindsEvery | pycorrector/address_corrector.py:38-74 | After sorting, every close window of a candidate name is a match |
| Address.FindMatches | pycorrector/address_corrector.py:38-74 | `distances_result` after `sort`: sorted by distance, a stable sort of the scan order (equal distances keep the scan's order), and exactly the close windows of the names |
| Address.DefaultThresholdBound | pycorrector/address_corrector.py:67-69 | Under the default threshold 10, a recorded match's character edit distance is at most 3 |
| Address.Greedy | pycorrector/address_corrector.py:113-117 | The applied windows are pairwise disjoint, and every skipped entry overlaps an earlier applied window. The sentence is the result of the applied `str.replace` calls in order |
| Address.GreedyPrefersCloser | pycorrector/address_corrector.py:74-117 | Over the distance-sorted list, every skipped entry overlaps an applied one that is at least as close |
| Address.ReplaceAllIdentity | pycorrector/address_corrector.py:116 | Matches whose window already reads as the name leave the sentence unchanged |
| Address.SplitAddress | pycorrector/address_corrector.py:167-197 | Structured parts appear in match order, and the special parts are the flushed runs of "other" fragments |
| Address.RunsOfInvariant | pycorrector/address_corrector.py:176-194 | Loop invariant: flushed runs are non-empty, and flushed runs plus the running string spell all "other" text so far. The running string is non-empty iff the last fragment is "other", and every run is counted once |
| Address.SpecialPartsRuns | pycorrector/address_corrector.py:176-197 | The special parts are non-empty, concatenate to all the "other" text and number exactly the maximal runs |
| Address.StructuredNonEmpty | pycorrector/address_corrector.py:180-185 | No structured part is empty |
| Address.AdminParts | pycorrector/address_corrector.py:133-144 | Exactly `AdminList`, in source order: the province aliases, then the city and the area when present, then the city without `市` or `特别行政区` and the area without `市` or `区`. So it starts with the aliases, holds the city, the area and their suffix-less forms, and nothing underived |
| Address.AddSuffixless | pycorrector/address_corrector.py:139-144 | Appends exactly `Suffixless` to the list it is given: the city without `市`, the city without `特别行政区`, the area without `市` or `区`, each only when the suffix is present and in that order. Every name it adds is derived from the parsed address |
| Address.SuffixlessFacts | pycorrector/address_corrector.py:139-144 | Each suffix-less form whose suffix is present is in the list, and every name in it is an administrative name |
| Address.AdminHeadFacts | pycorrector/address_corrector.py:133-138 | The province aliases lead the list, the city and the area are in it when present, and nothing else is |
| Address.PartAliases | pycorrector/address_corrector.py:150-160 | The loop appends exactly `PartAliasList` and sets aside exactly `CheckList`, part by part in address order. So a road, district or street part adds itself minus 1 character, then itself. An estate, avenue or sub-district part adds itself minus 2, then itself. Any other part goes to the to-check list, then itself minus 1 (the third pattern always matches) |
| Address.AddPart | pycorrector/address_corrector.py:151-160 | One turn of the loop: appends the names `PartAliasOf` gives for the part, or the to-check entries `CheckOf` gives |
| Address.PartListsMembers | pycorrector/address_corrector.py:150-160 | A name is in the alias list, or in the to-check list, exactly when some part contributes it |
| Address.PartListsFacts | pycorrector/address_corrector.py:150-160 | The lists the loop builds meet the road, estate and to-check rules for every part, keep the lists they extend as prefixes, and hold nothing a part does not justify |
| Address.GetPossibleParts | pycorrector/address_corrector.py:121-164 | KeyError iff the province has no aliases. Otherwise the split list, and the candidate names are exactly `AdminList`, then `PartAliasList` of the structured parts, then the special parts, in that order. The to-check list is exactly `CheckList`. The alias prefix, the suffix and part rules and derivation from the address follow |
| Address.AppendAll | pycorrector/address_corrector.py:162-163 | Appending each special part in turn yields the list followed by the special parts |
| Address.Correct | pycorrector/address_corrector.py:35-119 | KeyError iff the province is unknown. Otherwise the candidate names are exactly, in order, the administrative names, the structured parts' aliases and the special parts, so the key order of the length buckets is fixed. The matches are the stable distance sort of the scan order, so ties are fixed, and are exactly the close windows. The applied matches are disjoint, each skipped one overlaps an earlier applied one, and the sentence is their replacements applied in order |
| Bert.Framed | pycorrector/bert/bert_corrector.py:60-65 | `[CLS]`, one token per character, `[SEP]`: length `len(sentence) + 2` |
| Bert.MaskSpan | pycorrector/bert/bert_corrector.py:66-69 | Masks positions `begin+1 .. end` in place, or stops with IndexError when `end` runs past the tokens |
| Bert.ConvertSentenceToFeatures | pycorrector/bert/bert_corrector.py:56-90 | IndexError iff the mask runs past the tokens, otherwise the features `FeaturesOf` describes |
| Bert.FeaturesShape | pycorrector/bert/bert_corrector.py:60-82 | The tokens are framed and masked exactly at `begin+1 .. end`. The three id lists have length `max(max_seq_length, len(tokens))`, the input mask is 1 then 0, and the segment ids are 0. `mask_ids` are exactly the positions whose id is `MASK_ID` |
| Bert.PositionsOf | pycorrector/bert/bert_corrector.py:73 | `p` is listed iff `ids[p] == target` |
| Bert.PositionsIncreasing | pycorrector/bert/bert_corrector.py:73 | The positions come in increasing order |
| Bert.NoPositions | pycorrector/bert/bert_corrector.py:73 | No position is listed iff no id equals the target |
| Bert.MaskIdsAreSpan | pycorrector/bert/bert_corrector.py:66-73 | When only `[MASK]` has id `MASK_ID`, `mask_ids` are exactly the span's positions `begin+1 .. end` |
| Bert.CheckVocabHasAllToken | pycorrector/bert/bert_corrector.py:92-99 | True iff every character of the sentence is in the vocabulary, and false names a missing character |
| Bert.BertLmInfer | pycorrector/bert/bert_corrector.py:101-125 | The loop's value is the prediction at the last mask position, or `sentence[begin:end]` without one |
| Bert.InferUsesLastPosition | pycorrector/bert/bert_corrector.py:103-124 | For a non-empty span the result is the prediction at position `end`, and for an empty span the slice itself |
| Bert.SpanCorrection | pycorrector/bert/bert_corrector.py:141-155 | KeyError iff a confusion span lacks a custom correction. IndexError iff a Chinese character span over an all-in-vocabulary sentence overruns the tokens. A word span never changes |
| Bert.CorrectSpan | pycorrector/bert/bert_corrector.py:141-153 | The dispatch on the span's type computes `SpanCorrection` |
| Bert.Correct | pycorrector/bert/bert_corrector.py:127-162 | An empty detection gives `(sentence, [])`. The order is the stable ascending-end sort of the detection, and each span in turn has the outcome `SpanCorrection` gives in the sentence as the earlier edits left it: a differing correction is applied and logged, an error stops the loop with that error. A result without error means every confusion span had a custom entry. The detail is the log stably sorted by begin, so edits with the same begin keep their processing order, and replaying the log gives the sentence |
| Bert.CorrectStep | pycorrector/bert/bert_corrector.py:136-160 | One loop turn: the span's error, or its outcome added to the trace with the sentence and log updated |
| Bert.TraceStep | pycorrector/bert/bert_corrector.py:136-160 | Adding the next span's outcome in the sentence the log has built extends the trace, and the log grows by its edit exactly when it is a change |
| Bert.TracedConfusions | pycorrector/bert/bert_corrector.py:142-143 | In a complete trace every confusion span has a custom entry |
| Sorting.SortByKey | pycorrector/corrector.py:305 | `sorted(key=...)`: non-decreasing by the key, a permutation of the input, and stable: the elements of each key keep their input order |
| Sorting.InsertByKey | pycorrector/corrector.py:305 | One insertion step of the sort: the result stays sorted, gains exactly the new element, and the new element comes after every element of its key already present |
| Sorting.SortedUnique | pycorrector/address_corrector.py:74 | Two lists sorted by a key with the same elements per key, in the same order, are equal: a stable sort has one result |
| PyStr.Strip | pycorrector/corrector.py:43 | `str.strip()`: an infix of the line with only whitespace around it and none at either end |
| PyStr.JoinSplit | pycorrector/corrector.py:46 | `sep.join(s.split(sep)) == s` |
| PyStr.SplitJoin | pycorrector/corrector.py:46 | Splitting a join of separator-free fields gives the fields back |
| PyStr.Chars | pycorrector/corrector.py:49-50 | `set(list(s))` is exactly the one-character strings of the characters of `s` |
| PyStr.Slice | pycorrector/corrector.py:282-283 | Python slicing clamps both bounds to the string |
| PyStr.ReplaceSame | pycorrector/address_corrector.py:116 | `s.replace(w, w) == s` |
| PyStr.ReplaceAbsent | pycorrector/address_corrector.py:116 | Replacing a non-empty string that does not occur leaves the text unchanged |

## Left out

- File reading and the existence checks of the loaders. The loaders work on the lines already read, and a missing file is an empty list of lines.
- The lazy `initialized_*` flags and `check_*_initialized`. A state value is the initialised object.
- Logging, `print` and timing. `detect2` (debug code), the `__main__` blocks, `evaluate.py`, `server.py` and `pycorrector/config.py`.
- The detector is not part of this model. Its spans are inputs, and the model assumes nothing about them.
- kenlm, pypinyin, Levenshtein, `cpca.transform`, the regular-expression `findall` in `_split_address`, the BERT tokenizer and torch model are foreign calls. They are function-valued fields or given inputs, deterministic and otherwise unconstrained. Scores are reals; floating-point rounding is not modelled.
- Python set iteration order. It decides the order of candidates with equal word frequency. The frequency sort decides first, so it matters only when `np.argmin` meets several minimal scores whose candidates also have equal frequency. `LmCorrectItem` states the first-minimum rule over the list as given. `Decision`, and with it `CorrectItem` and `Correct`, states the frequency tie-break and leaves the choice among equally frequent, equally scored candidates open.
- Corrector.GenerateItems: requires `fraction >= 1`. With `fraction = 0` line 214 raises ZeroDivisionError, and a negative fraction slices by a negative bound. The only call site (line 295) passes the default 1.
- Corrector.LmCorrectItem: `maybe_right_items.append(item)` mutates the caller's list. The model returns the choice and leaves the caller's list alone. No caller reads the list afterwards.
- Corrector.SecondOrderShape, Corrector.MiddleShape and Corrector.ThirdOrderShape assume that both tables map to single characters. The same-pinyin table always does (`SamePinyinSingleChars`). The same-stroke table does when every field of its file is one character. A multi-character field would break the source's own length claim.
- Address.Correct: the `dist >= len(...)` penalty branch assigns the distance to itself and changes nothing, so the model leaves it out.
- Address.Correct: the `pinyin` result keeps only the first reading of each character, as the source reads `[0]`.
- The province alias table is a given list of `(alias, province)` pairs.
- Bert: `convert_tokens_to_ids` is a total function. A token missing from the vocabulary does not raise, because the BERT corrector only masks a sentence whose characters all passed `check_vocab_has_all_token`.
- Bert.MaskIdsAreSpan and Bert.InferUsesLastPosition assume that only `[MASK]` has the id `MASK_ID`. A character whose id collided with it would also be predicted.
- Bert.Correct: the branch for an error type that is none of confusion, char or word reuses a stale `corrected_item`. `ErrorType` has exactly the three kinds, so the branch cannot occur in the model.
- Bert.Correct: an IndexError is stated through the trace (the span whose `SpanCorrection` fails in the sentence as earlier edits left it), not as a condition on the input sentence alone, because earlier edits change what a later span sees.
