/**
 * The statistical corrector: candidate generation from the confusion tables
 * and the dictionary, the language-model ranker with its conservative margin,
 * and the right-to-left correction loop with its edit log.
 */
module Corrector {
  import opened Wrappers
  import opened PyStr
  import opened Sorting
  import opened Confusion

  /** The detector's span kinds (`error_type`). */
  datatype ErrorType = ConfusionError | WordError | CharError

  /** A suspect span `(item, begin_idx, end_idx, err_type)` reported by the detector. */
  datatype Span = Span(item: Str, begin: nat, end: nat, kind: ErrorType)

  /** An edit-log entry `[wrong, right, begin_idx, end_idx]`. */
  datatype Edit = Edit(wrong: Str, right: Str, begin: nat, end: nat)

  /**
   * The state of a `Corrector` once initialised, with the library calls it
   * makes given as functions: `edit_distance_word`, `lazy_pinyin`,
   * `is_chinese_string`, `word_frequency` and the kenlm `ppl_score`.
   */
  datatype CorrectorState = CorrectorState(
    samePinyin: Table,
    sameStroke: Table,
    cnCharSet: set<Str>,
    wordFreq: map<Str, int>,
    customConfusion: map<Str, Str>,
    editDistanceWord: (Str, set<Str>) -> set<Str>,
    lazyPinyin: Str -> seq<Str>,
    isChineseString: Str -> bool,
    wordFrequency: Str -> int,
    pplScore: Str -> real)

  // ---------------------------------------------------------------- confusion sources

  /** `known`: the words that the word-frequency dictionary contains. */
  function Known(wordFreq: map<Str, int>, words: set<Str>): (r: set<Str>)
    ensures r <= words
    ensures forall w :: w in words ==> (w in r <==> w in wordFreq)
  {
    set w | w in words && w in wordFreq
  }

  /** `_confusion_custom_set`: the custom correction of `word`, if it has one. */
  function ConfusionCustomSet(customConfusion: map<Str, Str>, word: Str): (r: set<Str>)
    ensures |r| <= 1
    ensures r == {} <==> word !in customConfusion
    ensures word in customConfusion ==> customConfusion[word] in r
  {
    if word in customConfusion then {customConfusion[word]} else {}
  }

  /** The confusion set of one character of the corrector. */
  function CharConfusion(st: CorrectorState, c: Str): set<Str> {
    ConfusionCharSet(st.samePinyin, st.sameStroke, c)
  }

  /** Known words near `word` with exactly the same pinyin. */
  function Homophones(st: CorrectorState, word: Str): set<Str> {
    set w | w in Known(st.wordFreq, st.editDistanceWord(word, st.cnCharSet)) && st.lazyPinyin(w) == st.lazyPinyin(word)
  }

  /** `_confusion_word_set`: the dictionary words at small edit distance that sound exactly like `word`. */
  method ConfusionWordSet(st: CorrectorState, word: Str) returns (r: set<Str>)
    ensures forall w :: w in r <==>
      w in st.editDistanceWord(word, st.cnCharSet) && w in st.wordFreq && st.lazyPinyin(w) == st.lazyPinyin(word)
    ensures r == Homophones(st, word)
  {
    var candidateWords := Known(st.wordFreq, st.editDistanceWord(word, st.cnCharSet));
    r := {};
    var rest := candidateWords;
    while rest != {}
      invariant rest <= candidateWords
      invariant forall w :: w in r <==> w in candidateWords - rest && st.lazyPinyin(w) == st.lazyPinyin(word)
      decreases rest
    {
      var candidateWord :| candidateWord in rest;
      if st.lazyPinyin(candidateWord) == st.lazyPinyin(word) {
        r := r + {candidateWord};
      }
      rest := rest - {candidateWord};
    }
  }

  // ---------------------------------------------------------------- candidate tiers

  /** First order: whole-word homophones and the custom confusion entry. */
  function FirstOrder(st: CorrectorState, word: Str): set<Str> {
    Homophones(st, word) + ConfusionCustomSet(st.customConfusion, word)
  }

  /** The non-empty strings of `xs`. */
  function NonEmpty(xs: set<Str>): set<Str> {
    set x | x in xs && x != []
  }

  /** `{i + suffix for i in xs}` */
  function AppendEach(xs: set<Str>, suffix: Str): set<Str> {
    set x | x in xs :: x + suffix
  }

  /** `{prefix + i for i in xs}` */
  function PrependEach(prefix: Str, xs: set<Str>): set<Str> {
    set x | x in xs :: prefix + x
  }

  /** Second order: one- and two-character words with one character substituted. */
  function SecondOrder(st: CorrectorState, word: Str): set<Str> {
    if |word| == 1 then
      NonEmpty(CharConfusion(st, word[..1]))
    else if |word| == 2 then
      AppendEach(NonEmpty(CharConfusion(st, word[..1])), word[1..])
      + PrependEach(word[..1], NonEmpty(CharConfusion(st, word[1..])))
    else {}
  }

  /** Third order, middle character: longer words with their second character substituted. */
  function MiddleSubstitutions(st: CorrectorState, word: Str): set<Str>
    requires |word| > 2
  {
    set i | i in CharConfusion(st, word[1..2]) :: word[..1] + i + word[2..]
  }

  /** Third order: the middle substitutions and the homophones of the prefix and of the suffix. */
  function ThirdOrder(st: CorrectorState, word: Str): set<Str> {
    if |word| > 2 then
      MiddleSubstitutions(st, word)
      + AppendEach(Homophones(st, word[..|word| - 1]), word[|word| - 1..])
      + PrependEach(word[..1], Homophones(st, word[1..]))
    else {}
  }

  /** Every candidate `generate_items` collects, before filtering. */
  function CandidatePool(st: CorrectorState, word: Str): set<Str> {
    FirstOrder(st, word) + SecondOrder(st, word) + ThirdOrder(st, word)
  }

  /** The candidates that pass the Chinese-string filter. */
  function ChineseCandidates(st: CorrectorState, word: Str): set<Str> {
    ChineseOf(st, CandidatePool(st, word))
  }

  /** `[item for item in pool if is_chinese_string(item)]`, in some iteration order of the set. */
  method KeepChinese(st: CorrectorState, pool: set<Str>) returns (r: seq<Str>)
    ensures forall x :: x in r <==> x in pool && st.isChineseString(x)
    ensures Distinct(r)
  {
    r := [];
    var rest := pool;
    while rest != {}
      invariant rest <= pool
      invariant forall x :: x in r <==> x in pool - rest && st.isChineseString(x)
      invariant Distinct(r)
      decreases rest
    {
      var item :| item in rest;
      if st.isChineseString(item) {
        r := r + [item];
      }
      rest := rest - {item};
    }
  }

  /**
   * `generate_items`: the distinct Chinese candidates of `word` by descending
   * word frequency, cut to the first `n // fraction + 1` of the `n` there are.
   */
  method GenerateItems(st: CorrectorState, word: Str, fraction: nat) returns (items: seq<Str>)
    requires fraction >= 1
    ensures Distinct(items)
    ensures forall x :: x in items ==> x in ChineseCandidates(st, word)
    ensures forall i, j :: 0 <= i < j < |items| ==> st.wordFrequency(items[i]) >= st.wordFrequency(items[j])
    ensures var n := |ChineseCandidates(st, word)|; |items| == Min(n, n / fraction + 1)
    ensures forall x, y :: x in ChineseCandidates(st, word) && x !in items && y in items ==>
      st.wordFrequency(y) >= st.wordFrequency(x)
    ensures fraction == 1 ==> forall x :: x in ChineseCandidates(st, word) ==> x in items
  {
    var confusionWordSet := CollectCandidates(st, word);
    items := RankCandidates(st, confusionWordSet, fraction);
  }

  /** The Chinese strings of `pool`. */
  function ChineseOf(st: CorrectorState, pool: set<Str>): set<Str> {
    set x | x in pool && st.isChineseString(x)
  }

  /** The filtering, sorting and truncation of `generate_items`, for a given candidate pool. */
  method RankCandidates(st: CorrectorState, pool: set<Str>, fraction: nat) returns (items: seq<Str>)
    requires fraction >= 1
    ensures Distinct(items)
    ensures forall x :: x in items ==> x in ChineseOf(st, pool)
    ensures forall i, j :: 0 <= i < j < |items| ==> st.wordFrequency(items[i]) >= st.wordFrequency(items[j])
    ensures var n := |ChineseOf(st, pool)|; |items| == Min(n, n / fraction + 1)
    ensures forall x, y :: x in ChineseOf(st, pool) && x !in items && y in items ==>
      st.wordFrequency(y) >= st.wordFrequency(x)
    ensures fraction == 1 ==> forall x :: x in ChineseOf(st, pool) ==> x in items
  {
    var confusionWordList := KeepChinese(st, pool);
    var confusionSorted := SortByKey(confusionWordList, ByFrequency(st));
    PermutationDistinct(confusionWordList, confusionSorted);
    var n := |confusionWordList|;
    var cut := Min(n, n / fraction + 1);
    items := confusionSorted[..cut];
    RankedPrefix(st, pool, confusionSorted, fraction, cut);
  }

  /** The cut of the sorted Chinese candidates is what `RankCandidates` promises. */
  lemma RankedPrefix(st: CorrectorState, pool: set<Str>, sorted: seq<Str>, fraction: nat, cut: nat)
    requires fraction >= 1 && Distinct(sorted) && SortedByKey(sorted, ByFrequency(st))
    requires forall x :: x in sorted <==> x in ChineseOf(st, pool)
    requires cut == Min(|sorted|, |sorted| / fraction + 1)
    ensures Distinct(sorted[..cut])
    ensures forall x :: x in sorted[..cut] ==> x in ChineseOf(st, pool)
    ensures forall i, j :: 0 <= i < j < cut ==> st.wordFrequency(sorted[i]) >= st.wordFrequency(sorted[j])
    ensures var n := |ChineseOf(st, pool)|; cut == Min(n, n / fraction + 1)
    ensures forall x, y :: x in ChineseOf(st, pool) && x !in sorted[..cut] && y in sorted[..cut] ==>
      st.wordFrequency(y) >= st.wordFrequency(x)
    ensures fraction == 1 ==> forall x :: x in ChineseOf(st, pool) ==> x in sorted[..cut]
  {
    ListOfSet(sorted, ChineseOf(st, pool));
    DescendingPrefix(st, sorted, cut);
    if fraction == 1 {
      assert cut == |sorted| && sorted[..cut] == sorted;
    }
  }

  /** Sorting by this key puts the more frequent words first. */
  function ByFrequency(st: CorrectorState): Str -> int {
    x => -st.wordFrequency(x)
  }

  /** A prefix of a list sorted by descending frequency holds its most frequent words, in order. */
  lemma DescendingPrefix(st: CorrectorState, sorted: seq<Str>, cut: nat)
    requires SortedByKey(sorted, ByFrequency(st)) && cut <= |sorted|
    ensures forall i, j :: 0 <= i < j < cut ==> st.wordFrequency(sorted[i]) >= st.wordFrequency(sorted[j])
    ensures forall x, y :: x in sorted && x !in sorted[..cut] && y in sorted[..cut] ==>
      st.wordFrequency(y) >= st.wordFrequency(x)
  {
    forall x, y | x in sorted && x !in sorted[..cut] && y in sorted[..cut]
      ensures st.wordFrequency(y) >= st.wordFrequency(x)
    {
      var j :| 0 <= j < |sorted| && sorted[j] == x;
      var i :| 0 <= i < cut && sorted[i] == y;
      assert j >= cut;
      assert ByFrequency(st)(sorted[i]) <= ByFrequency(st)(sorted[j]);
    }
    forall i, j | 0 <= i < j < cut ensures st.wordFrequency(sorted[i]) >= st.wordFrequency(sorted[j]) {
      assert ByFrequency(st)(sorted[i]) <= ByFrequency(st)(sorted[j]);
    }
  }

  /** The three candidate tiers of `generate_items`, merged. */
  method CollectCandidates(st: CorrectorState, word: Str) returns (confusionWordSet: set<Str>)
    ensures confusionWordSet == CandidatePool(st, word)
  {
    var candidates1 := FirstOrderCandidates(st, word);
    var candidates2 := SecondOrderCandidates(st, word);
    var candidates3 := ThirdOrderCandidates(st, word);
    confusionWordSet := candidates1 + candidates2 + candidates3;
  }

  method FirstOrderCandidates(st: CorrectorState, word: Str) returns (candidates1: set<Str>)
    ensures candidates1 == FirstOrder(st, word)
  {
    candidates1 := ConfusionWordSet(st, word);
    candidates1 := candidates1 + ConfusionCustomSet(st.customConfusion, word);
  }

  method SecondOrderCandidates(st: CorrectorState, word: Str) returns (candidates2: set<Str>)
    ensures candidates2 == SecondOrder(st, word)
  {
    candidates2 := {};
    if |word| == 1 {
      candidates2 := candidates2 + NonEmpty(CharConfusion(st, word[..1]));
    }
    if |word| == 2 {
      candidates2 := candidates2 + AppendEach(NonEmpty(CharConfusion(st, word[..1])), word[1..]);
      candidates2 := candidates2 + PrependEach(word[..1], NonEmpty(CharConfusion(st, word[1..])));
    }
  }

  method ThirdOrderCandidates(st: CorrectorState, word: Str) returns (candidates3: set<Str>)
    ensures candidates3 == ThirdOrder(st, word)
  {
    candidates3 := {};
    if |word| > 2 {
      candidates3 := candidates3 + MiddleSubstitutions(st, word);
      var prefixWords := ConfusionWordSet(st, word[..|word| - 1]);
      candidates3 := candidates3 + AppendEach(prefixWords, word[|word| - 1..]);
      var suffixWords := ConfusionWordSet(st, word[1..]);
      candidates3 := candidates3 + PrependEach(word[..1], suffixWords);
    }
  }

  // ---------------------------------------------------------------- shape of substitutions

  /** Every value of the table is a set of single characters. */
  predicate SingleChars(t: Table) {
    forall k :: k in t ==> forall x :: x in t[k] ==> |x| == 1
  }

  /** `x` is `word` with the character at `p` replaced by one of that character's confusion characters. */
  predicate DiffersAt(st: CorrectorState, word: Str, x: Str, p: nat) {
    p < |word| == |x| && x[..p] == word[..p] && x[p + 1..] == word[p + 1..]
    && [x[p]] in CharConfusion(st, word[p..p + 1])
  }

  /** With single-character tables every confusion candidate is one character long. */
  lemma CharConfusionSingle(st: CorrectorState, c: Str, i: Str)
    requires SingleChars(st.samePinyin) && SingleChars(st.sameStroke) && i in CharConfusion(st, c)
    ensures |i| == 1
  {
  }

  /**
   * With single-character confusion sets, a second-order candidate has the
   * word's length and differs from it at exactly one position, by a
   * confusion character of the character there: position 0 for a
   * one-character word, position 0 or 1 for a two-character word.
   */
  lemma SecondOrderShape(st: CorrectorState, word: Str, x: Str)
    requires SingleChars(st.samePinyin) && SingleChars(st.sameStroke)
    requires x in SecondOrder(st, word)
    ensures |word| == |x| && (|word| == 1 || |word| == 2)
    ensures exists p :: DiffersAt(st, word, x, p) && (|word| == 1 ==> p == 0)
  {
    if |word| == 1 {
      SubstituteFirst(st, word, x, x);
    } else if i :| i in NonEmpty(CharConfusion(st, word[..1])) && x == i + word[1..] {
      SubstituteFirst(st, word, x, i);
    } else {
      var i :| i in NonEmpty(CharConfusion(st, word[1..])) && x == word[..1] + i;
      SubstituteSecond(st, word, x, i);
    }
  }

  lemma SubstituteFirst(st: CorrectorState, word: Str, x: Str, i: Str)
    requires SingleChars(st.samePinyin) && SingleChars(st.sameStroke)
    requires |word| >= 1 && i in CharConfusion(st, word[..1]) && x == i + word[1..]
    ensures DiffersAt(st, word, x, 0)
  {
    assert word[0..1] == word[..1];
    CharConfusionSingle(st, word[..1], i);
    ReplaceAt(word, x, 0, i);
  }

  lemma SubstituteSecond(st: CorrectorState, word: Str, x: Str, i: Str)
    requires SingleChars(st.samePinyin) && SingleChars(st.sameStroke)
    requires |word| == 2 && i in CharConfusion(st, word[1..]) && x == word[..1] + i
    ensures DiffersAt(st, word, x, 1)
  {
    assert word[1..2] == word[1..];
    CharConfusionSingle(st, word[1..], i);
    ReplaceAt(word, x, 1, i);
  }

  /**
   * With single-character confusion sets, a middle substitution of a longer
   * word differs from it only at position 1, by a confusion character of the
   * character there.
   */
  lemma MiddleShape(st: CorrectorState, word: Str, x: Str)
    requires SingleChars(st.samePinyin) && SingleChars(st.sameStroke)
    requires |word| > 2 && x in MiddleSubstitutions(st, word)
    ensures DiffersAt(st, word, x, 1)
  {
    var i :| i in CharConfusion(st, word[1..2]) && x == word[..1] + i + word[2..];
    CharConfusionSingle(st, word[1..2], i);
    ReplaceAt(word, x, 1, i);
  }

  /**
   * A third-order candidate belongs to a word longer than two characters and
   * is a middle substitution, a homophone of the word without its last
   * character followed by that character, or the first character followed by
   * a homophone of the rest.
   */
  lemma ThirdOrderShape(st: CorrectorState, word: Str, x: Str)
    requires SingleChars(st.samePinyin) && SingleChars(st.sameStroke)
    requires x in ThirdOrder(st, word)
    ensures |word| > 2
    ensures || DiffersAt(st, word, x, 1)
            || (exists h :: h in Homophones(st, DropLast(word, 1)) && x == h + [word[|word| - 1]])
            || (exists h :: h in Homophones(st, word[1..]) && x == [word[0]] + h)
  {
    if x in MiddleSubstitutions(st, word) {
      MiddleShape(st, word, x);
    } else if x in AppendEach(Homophones(st, word[..|word| - 1]), word[|word| - 1..]) {
      var h :| h in Homophones(st, word[..|word| - 1]) && x == h + word[|word| - 1..];
      assert word[|word| - 1..] == [word[|word| - 1]] && DropLast(word, 1) == word[..|word| - 1];
    } else {
      var h :| h in Homophones(st, word[1..]) && x == word[..1] + h;
      assert word[..1] == [word[0]];
    }
  }

  /** `x` is `word` with the character at `p` replaced by the one-character string `c`. */
  lemma ReplaceAt(word: Str, x: Str, p: nat, c: Str)
    requires p < |word| && |c| == 1 && x == word[..p] + c + word[p + 1..]
    ensures |x| == |word| && x[..p] == word[..p] && x[p + 1..] == word[p + 1..] && [x[p]] == c
  {
    assert x[..p] == word[..p];
    assert x[p + 1..] == word[p + 1..];
  }

  /** Every key of the folded map is bound to the value of one of the entries. */
  lemma {:induction false} UpsertValues<K, V>(entries: seq<Option<(K, V)>>, k: K)
    requires k in Upsert(entries)
    ensures exists j :: 0 <= j < |entries| && entries[j] == Some((k, Upsert(entries)[k]))
    decreases |entries|
  {
    var init := entries[..|entries| - 1];
    var last := entries[|entries| - 1];
    if last.Some? && last.value.0 == k {
      assert entries[|entries| - 1] == Some((k, Upsert(entries)[k]));
    } else {
      UpsertValues(init, k);
      var j :| 0 <= j < |init| && init[j] == Some((k, Upsert(init)[k]));
      assert entries[j] == init[j];
    }
  }

  /** A loaded same-pinyin table only ever maps to single characters. */
  lemma SamePinyinSingleChars(lines: seq<Str>, sep: char)
    ensures SingleChars(SamePinyinTable(lines, sep))
  {
    var es := PinyinEntries(lines, sep);
    forall k | k in SamePinyinTable(lines, sep) ensures forall x :: x in SamePinyinTable(lines, sep)[k] ==> |x| == 1 {
      UpsertValues(es, k);
      var j :| 0 <= j < |es| && es[j] == Some((k, Upsert(es)[k]));
      assert es[j] == PinyinEntry(lines[j], sep);
      PinyinEntrySpec(lines[j], sep);
    }
  }

  // ---------------------------------------------------------------- language-model ranker

  /** The language-model score of `candidate` in its sentence context (lower is more fluent). */
  function Score(st: CorrectorState, before: Str, candidate: Str, after: Str): real {
    st.pplScore(before + candidate + after)
  }

  /** The candidate list after `lm_correct_item` appends `item` when it is missing. */
  function Extend(items: seq<Str>, item: Str): (r: seq<Str>)
    ensures item in r
    ensures forall x :: x in r <==> x in items || x == item
    ensures |items| <= |r| <= |items| + 1 && r[..|items|] == items
    ensures item in items ==> r == items
  {
    if item in items then items else items + [item]
  }

  function Scores(st: CorrectorState, before: Str, items: seq<Str>, after: Str): (r: seq<real>)
    ensures |r| == |items|
    ensures forall i :: 0 <= i < |items| ==> r[i] == Score(st, before, items[i], after)
  {
    seq(|items|, i requires 0 <= i < |items| => Score(st, before, items[i], after))
  }

  /** `k` is the first position of a minimum of `xs`. */
  predicate IsFirstMin(xs: seq<real>, k: int) {
    && 0 <= k < |xs|
    && (forall j :: 0 <= j < |xs| ==> xs[k] <= xs[j])
    && (forall j :: 0 <= j < k ==> xs[j] > xs[k])
  }

  /** `np.argmin`: the first position of the smallest score. */
  method ArgMin(xs: seq<real>) returns (k: nat)
    requires |xs| > 0
    ensures IsFirstMin(xs, k)
  {
    k := 0;
    for i := 1 to |xs|
      invariant k < i
      invariant forall j :: 0 <= j < i ==> xs[k] <= xs[j]
      invariant forall j :: 0 <= j < k ==> xs[j] > xs[k]
    {
      if xs[i] < xs[k] {
        k := i;
      }
    }
  }

  /** The margin by which a candidate must beat the original's score. */
  const Threshold: real := 2.0

  /**
   * `lm_correct_item`: keeps `item` unless the best-scoring candidate (the
   * first one on a tie) beats it by more than the margin.
   */
  method LmCorrectItem(st: CorrectorState, item: Str, maybeRightItems: seq<Str>, beforeSent: Str, afterSent: Str)
    returns (corrected: Str)
    ensures corrected in Extend(maybeRightItems, item)
    ensures var items := Extend(maybeRightItems, item); var scores := Scores(st, beforeSent, items, afterSent);
      exists k :: IsFirstMin(scores, k)
        && corrected == if Score(st, beforeSent, item, afterSent) <= scores[k] + Threshold then item else items[k]
    ensures corrected != item ==>
      Score(st, beforeSent, corrected, afterSent) + Threshold < Score(st, beforeSent, item, afterSent)
    ensures (exists c :: c in maybeRightItems &&
              Score(st, beforeSent, c, afterSent) + Threshold < Score(st, beforeSent, item, afterSent))
      ==> corrected != item
    ensures corrected != item ==> (corrected in maybeRightItems &&
      forall c :: c in maybeRightItems ==> Score(st, beforeSent, corrected, afterSent) <= Score(st, beforeSent, c, afterSent))
    ensures corrected != item ==> FirstBest(st, maybeRightItems, beforeSent, afterSent, corrected)
  {
    var items := maybeRightItems;
    if item !in items {
      items := items + [item];
    }
    var res: seq<real> := [];
    var oriScore := st.pplScore(beforeSent + item + afterSent);
    for i := 0 to |items|
      invariant |res| == i
      invariant forall j :: 0 <= j < i ==> res[j] == Score(st, beforeSent, items[j], afterSent)
    {
      var score := st.pplScore(beforeSent + items[i] + afterSent);
      res := res + [score];
    }
    assert items == Extend(maybeRightItems, item);
    assert res == Scores(st, beforeSent, items, afterSent);
    var minIdx := ArgMin(res);
    var minScore := res[minIdx];
    if oriScore <= minScore + Threshold {
      corrected := item;
    } else {
      corrected := items[minIdx];
    }
    MarginChoice(st, item, maybeRightItems, beforeSent, afterSent, minIdx, corrected);
  }

  /**
   * `c` is where `np.argmin` stops in `rights`: it sits at some position `k`
   * and every candidate before it scores strictly worse.
   */
  predicate FirstBest(st: CorrectorState, rights: seq<Str>, before: Str, after: Str, c: Str) {
    exists k :: 0 <= k < |rights| && rights[k] == c
      && forall j :: 0 <= j < k ==> Score(st, before, rights[j], after) > Score(st, before, c, after)
  }

  /**
   * The choice of `lm_correct_item` changes the item exactly when some
   * candidate beats it by more than the margin, and then it is a candidate
   * with the smallest score.
   */
  lemma MarginChoice(st: CorrectorState, item: Str, rights: seq<Str>, before: Str, after: Str, k: nat, corrected: Str)
    requires IsFirstMin(Scores(st, before, Extend(rights, item), after), k)
    requires corrected == if Score(st, before, item, after) <= Scores(st, before, Extend(rights, item), after)[k] + Threshold
                          then item else Extend(rights, item)[k]
    ensures corrected != item ==> Score(st, before, corrected, after) + Threshold < Score(st, before, item, after)
    ensures (exists c :: c in rights && Score(st, before, c, after) + Threshold < Score(st, before, item, after))
      ==> corrected != item
    ensures corrected != item ==> (corrected in rights &&
      forall c :: c in rights ==> Score(st, before, corrected, after) <= Score(st, before, c, after))
    ensures corrected != item ==> FirstBest(st, rights, before, after, corrected)
  {
    var items := Extend(rights, item);
    var res := Scores(st, before, items, after);
    if corrected != item {
      assert k < |rights| && items[k] == rights[k];
      forall j | 0 <= j < k ensures Score(st, before, rights[j], after) > Score(st, before, corrected, after) {
        assert res[j] > res[k];
      }
    }
    if c :| c in rights && Score(st, before, c, after) + Threshold < Score(st, before, item, after) {
      var j :| 0 <= j < |items| && items[j] == c;
      assert res[j] == Score(st, before, c, after);
    }
    if corrected != item {
      forall c | c in rights
        ensures Score(st, before, corrected, after) <= Score(st, before, c, after)
      {
        var j :| 0 <= j < |items| && items[j] == c;
        assert res[j] == Score(st, before, c, after);
      }
    }
  }

  // ---------------------------------------------------------------- correction loop

  /** `sentence[:begin] + replacement + sentence[end:]` */
  function Splice(s: Str, begin: nat, end: nat, replacement: Str): Str {
    Prefix(s, begin) + replacement + Suffix(s, end)
  }

  /** The sentence after splicing in the edits one after the other. */
  function Replay(s: Str, edits: seq<Edit>): Str
    decreases |edits|
  {
    if edits == [] then s
    else
      var e := edits[|edits| - 1];
      Splice(Replay(s, edits[..|edits| - 1]), e.begin, e.end, e.right)
  }

  lemma ReplaySnoc(s: Str, edits: seq<Edit>, e: Edit)
    ensures Replay(s, edits + [e]) == Splice(Replay(s, edits), e.begin, e.end, e.right)
  {
    assert (edits + [e])[..|edits|] == edits;
  }

  /**
   * Edits that all start at or after `p` leave the first `p` characters
   * alone; this is why the right-to-left order keeps the offsets of the spans
   * still to be processed valid.
   */
  lemma {:induction false} ReplayKeepsPrefix(s: Str, edits: seq<Edit>, p: nat)
    requires p <= |s|
    requires forall e :: e in edits ==> p <= e.begin
    ensures p <= |Replay(s, edits)| && Replay(s, edits)[..p] == s[..p]
    decreases |edits|
  {
    if edits != [] {
      var init := edits[..|edits| - 1];
      var e := edits[|edits| - 1];
      assert forall e' :: e' in init ==> e' in edits;
      ReplayKeepsPrefix(s, init, p);
      assert Replay(s, edits) == Splice(Replay(s, init), e.begin, e.end, e.right);
      SpliceKeepsPrefix(Replay(s, init), e.begin, e.end, e.right, p);
    }
  }

  /** A splice at or after `p` leaves the first `p` characters alone. */
  lemma SpliceKeepsPrefix(t: Str, begin: nat, end: nat, replacement: Str, p: nat)
    requires p <= |t| && p <= begin
    ensures p <= |Splice(t, begin, end, replacement)| && Splice(t, begin, end, replacement)[..p] == t[..p]
  {
    var before := Prefix(t, begin);
    assert |before| >= p && before[..p] == t[..p];
    assert (before + replacement + Suffix(t, end))[..p] == before[..p];
  }

  /** An edit is backed by a span: same text and position, and a replacement the span's kind allows. */
  predicate Justified(st: CorrectorState, e: Edit, spans: seq<Span>) {
    exists s :: s in spans && Justifies(st, s, e)
  }

  /** The span `s` allows the edit `e`. */
  predicate Justifies(st: CorrectorState, s: Span, e: Edit) {
    && s.item == e.wrong && s.begin == e.begin && s.end == e.end
    && (s.kind == ConfusionError ==> s.item in st.customConfusion && e.right == st.customConfusion[s.item])
    && (s.kind != ConfusionError ==> st.isChineseString(s.item) && e.right in ChineseCandidates(st, s.item))
  }

  /** A confusion span without a custom correction: `custom_confusion[item]` raises KeyError on it. */
  predicate MissingConfusion(st: CorrectorState, s: Span) {
    s.kind == ConfusionError && s.item !in st.customConfusion
  }

  /** The language-model score of `c` written in the place of span `s` of the sentence `t`. */
  function ScoreAt(st: CorrectorState, t: Str, s: Span, c: Str): real {
    Score(st, Prefix(t, s.begin), c, Suffix(t, s.end))
  }

  /** `c` scores better than the span's own text by more than the margin. */
  predicate Beats(st: CorrectorState, t: Str, s: Span, c: Str) {
    ScoreAt(st, t, s, c) + Threshold < ScoreAt(st, t, s, s.item)
  }

  /** The edit that writes `right` over span `s`. */
  function EditOf(s: Span, right: Str): Edit {
    Edit(s.item, right, s.begin, s.end)
  }

  /** The choice for a span, kept only when it changes the span's text. */
  function ChangeOf(s: Span, choice: Option<Str>): Option<Str> {
    if choice.Some? && choice.value != s.item then choice else None
  }

  /**
   * What `correct` does at span `s` of the current sentence `t`, where `cs`
   * are the span's candidates: `o` is the text spliced in, `None` where the
   * span stays. A confusion span takes its custom correction when it differs;
   * any other span is replaced exactly when it is Chinese and some candidate
   * beats it by more than the margin, and then by a best-scoring candidate
   * that no other best-scoring candidate outranks in word frequency.
   */
  predicate Decision(st: CorrectorState, cs: set<Str>, t: Str, s: Span, o: Option<Str>) {
    && (o.Some? ==> o.value != s.item)
    && (s.kind == ConfusionError ==>
          s.item in st.customConfusion && o == ChangeOf(s, Some(st.customConfusion[s.item])))
    && (s.kind != ConfusionError ==>
          && (o.Some? <==> st.isChineseString(s.item) && exists c :: c in cs && Beats(st, t, s, c))
          && (o.Some? ==> (o.value in cs && Beats(st, t, s, o.value)
                && (forall c :: c in cs ==> ScoreAt(st, t, s, o.value) <= ScoreAt(st, t, s, c))
                && forall c :: c in cs && ScoreAt(st, t, s, c) == ScoreAt(st, t, s, o.value) ==>
                     st.wordFrequency(c) <= st.wordFrequency(o.value))))
  }

  /** Of two equally scored candidates, `Decision` never picks the less frequent one. */
  lemma DecisionPrefersFrequent(st: CorrectorState, cs: set<Str>, t: Str, s: Span, a: Str, b: Str)
    requires s.kind != ConfusionError && a in cs && b in cs
    requires ScoreAt(st, t, s, a) == ScoreAt(st, t, s, b) && st.wordFrequency(a) > st.wordFrequency(b)
    ensures !Decision(st, cs, t, s, Some(b))
  {
  }

  /**
   * The replacement `correct` chooses for one span of the current sentence,
   * `Ok(None)` where it skips the span: a confusion span takes its custom
   * correction (KeyError when there is none); any other span, when Chinese
   * and with candidates, takes the language model's choice among them.
   */
  method CorrectItem(st: CorrectorState, sentence: Str, span: Span) returns (r: Result<Option<Str>>)
    ensures r.Err? <==> MissingConfusion(st, span)
    ensures r.Err? ==> r.error == KeyError
    ensures span.kind == ConfusionError && span.item in st.customConfusion ==>
      r == Ok(Some(st.customConfusion[span.item]))
    ensures span.kind != ConfusionError && r.Ok? && r.value.Some? && r.value.value != span.item ==>
      st.isChineseString(span.item) && r.value.value in ChineseCandidates(st, span.item)
    ensures span.kind != ConfusionError && r.Ok? && r.value.Some? && r.value.value != span.item ==>
      var before := Prefix(sentence, span.begin); var after := Suffix(sentence, span.end);
      Score(st, before, r.value.value, after) + Threshold < Score(st, before, span.item, after)
    ensures span.kind != ConfusionError && !st.isChineseString(span.item) ==> r == Ok(None)
    ensures r.Ok? ==> Decision(st, ChineseCandidates(st, span.item), sentence, span, ChangeOf(span, r.value))
  {
    var beforeSent := Prefix(sentence, span.begin);
    var afterSent := Suffix(sentence, span.end);
    if span.kind == ConfusionError {
      if span.item !in st.customConfusion {
        return Err(KeyError);
      }
      return Ok(Some(st.customConfusion[span.item]));
    }
    if !st.isChineseString(span.item) {
      return Ok(None);
    }
    var maybeRightItems := GenerateItems(st, span.item, 1);
    if maybeRightItems == [] {
      assert ChineseCandidates(st, span.item) == {};
      return Ok(None);
    }
    var correctedItem := LmCorrectItem(st, span.item, maybeRightItems, beforeSent, afterSent);
    r := Ok(Some(correctedItem));
    LmDecision(st, sentence, span, maybeRightItems, correctedItem);
  }

  /**
   * The language model's choice among all the candidates of a Chinese span,
   * listed by descending frequency, is the `Decision`: the first minimum is
   * the most frequent of the best-scoring candidates.
   */
  lemma LmDecision(st: CorrectorState, t: Str, span: Span, rights: seq<Str>, corrected: Str)
    requires span.kind != ConfusionError && st.isChineseString(span.item)
    requires forall x :: x in rights <==> x in ChineseCandidates(st, span.item)
    requires var before, after := Prefix(t, span.begin), Suffix(t, span.end);
      && (corrected != span.item ==> Score(st, before, corrected, after) + Threshold < Score(st, before, span.item, after))
      && ((exists c :: c in rights && Score(st, before, c, after) + Threshold < Score(st, before, span.item, after))
          ==> corrected != span.item)
      && (corrected != span.item ==> (corrected in rights &&
          forall c :: c in rights ==> Score(st, before, corrected, after) <= Score(st, before, c, after)))
      && (corrected != span.item ==> FirstBest(st, rights, before, after, corrected))
    requires forall i, j :: 0 <= i < j < |rights| ==> st.wordFrequency(rights[i]) >= st.wordFrequency(rights[j])
    ensures Decision(st, ChineseCandidates(st, span.item), t, span, ChangeOf(span, Some(corrected)))
  {
    var cs := ChineseCandidates(st, span.item);
    var before, after := Prefix(t, span.begin), Suffix(t, span.end);
    if corrected == span.item {
      forall c | c in cs ensures !Beats(st, t, span, c) {
        assert c in rights;
      }
    } else {
      FirstBestMostFrequent(st, rights, before, after, corrected);
      assert corrected in cs && Beats(st, t, span, corrected);
      forall c | c in cs
        ensures ScoreAt(st, t, span, corrected) <= ScoreAt(st, t, span, c)
        ensures ScoreAt(st, t, span, c) == ScoreAt(st, t, span, corrected) ==>
          st.wordFrequency(c) <= st.wordFrequency(corrected)
      {
        assert c in rights;
      }
    }
  }

  /** In a list by descending frequency, the first best-scoring entry is the most frequent of the best. */
  lemma FirstBestMostFrequent(st: CorrectorState, rights: seq<Str>, before: Str, after: Str, corrected: Str)
    requires FirstBest(st, rights, before, after, corrected)
    requires forall i, j :: 0 <= i < j < |rights| ==> st.wordFrequency(rights[i]) >= st.wordFrequency(rights[j])
    ensures forall c :: c in rights && Score(st, before, c, after) == Score(st, before, corrected, after) ==>
      st.wordFrequency(c) <= st.wordFrequency(corrected)
  {
    var k :| 0 <= k < |rights| && rights[k] == corrected
      && forall j :: 0 <= j < k ==> Score(st, before, rights[j], after) > Score(st, before, corrected, after);
    forall c | c in rights && Score(st, before, c, after) == Score(st, before, corrected, after)
      ensures st.wordFrequency(c) <= st.wordFrequency(corrected)
    {
      var j :| 0 <= j < |rights| && rights[j] == c;
      if k < j {
        assert st.wordFrequency(rights[k]) >= st.wordFrequency(rights[j]);
      }
    }
  }

  /** The candidate sets of the corrector, as one function. */
  ghost predicate CandidateOracle(st: CorrectorState, cands: Str -> set<Str>) {
    forall w {:trigger ChineseCandidates(st, w)} :: cands(w) == ChineseCandidates(st, w)
  }

  /** `CorrectItem` with its candidate sets read through `cands`, for use inside the correction loop. */
  method CorrectItemWith(st: CorrectorState, sentence: Str, span: Span, ghost cands: Str -> set<Str>)
    returns (r: Result<Option<Str>>)
    requires CandidateOracle(st, cands)
    ensures r.Err? <==> MissingConfusion(st, span)
    ensures span.kind == ConfusionError && span.item in st.customConfusion ==>
      r == Ok(Some(st.customConfusion[span.item]))
    ensures span.kind != ConfusionError && r.Ok? && r.value.Some? && r.value.value != span.item ==>
      st.isChineseString(span.item) && r.value.value in cands(span.item)
    ensures r.Ok? ==> Decision(st, cands(span.item), sentence, span, ChangeOf(span, r.value))
  {
    r := CorrectItem(st, sentence, span);
    assert cands(span.item) == ChineseCandidates(st, span.item);
  }

  /** `Justifies`, with the candidate sets read through `cands`. */
  ghost predicate JustifiesWith(st: CorrectorState, cands: Str -> set<Str>, s: Span, e: Edit) {
    && s.item == e.wrong && s.begin == e.begin && s.end == e.end
    && (s.kind == ConfusionError ==> s.item in st.customConfusion && e.right == st.customConfusion[s.item])
    && (s.kind != ConfusionError ==> st.isChineseString(s.item) && e.right in cands(s.item))
  }

  /**
   * `correct`: processes the detector's spans by descending end index,
   * splicing in every replacement that differs from the original, and returns
   * the sentence with the edit log sorted by begin index; a confusion span
   * without a custom correction raises KeyError. `applied` is the log in
   * processing order.
   */
  method Correct(st: CorrectorState, sentence: Str, maybeErrors: seq<Span>)
    returns (r: Result<(Str, seq<Edit>)>, ghost applied: seq<Edit>,
             ghost order: seq<Span>, ghost outcomes: seq<Option<Str>>)
    ensures r.Err? <==> exists s :: s in maybeErrors && MissingConfusion(st, s)
    ensures r.Err? ==> r.error == KeyError
    ensures maybeErrors == [] ==> r == Ok((sentence, []))
    ensures r.Ok? ==> SortedByKey(r.value.1, ByBegin()) && SameKeyClasses(r.value.1, applied, ByBegin())
    ensures r.Ok? ==> multiset(r.value.1) == multiset(applied) && |applied| <= |maybeErrors|
    ensures r.Ok? ==> r.value.0 == Replay(sentence, applied)
    ensures r.Ok? ==> forall i, j :: 0 <= i < j < |applied| ==> applied[i].end >= applied[j].end
    ensures r.Ok? ==> forall e :: e in r.value.1 ==> e.wrong != e.right && Justified(st, e, maybeErrors)
    ensures r.Ok? ==> forall s :: (s in maybeErrors && s.kind == ConfusionError && s.item in st.customConfusion
      && st.customConfusion[s.item] != s.item) ==> Edit(s.item, st.customConfusion[s.item], s.begin, s.end) in r.value.1
    ensures SortedByKey(order, LaterFirst()) && multiset(order) == multiset(maybeErrors)
    ensures SameKeyClasses(order, maybeErrors, LaterFirst())
    ensures r.Ok? ==> |outcomes| == |order| && applied == Log(order, outcomes)
    ensures r.Ok? ==> forall k :: 0 <= k < |order| ==>
      Decision(st, ChineseCandidates(st, order[k].item), Seen(sentence, order, outcomes, k), order[k], outcomes[k])
    ensures r.Ok? ==> forall k :: 0 <= k < |order| && outcomes[k].Some? ==>
      EditOf(order[k], outcomes[k].value) in r.value.1
    ensures r.Ok? ==> Corrected(st, sentence, maybeErrors, r.value, applied, order, outcomes)
  {
    var errors := SortByKey(maybeErrors, LaterFirst());
    SameElements(maybeErrors, errors);
    order := errors;
    ghost var cands := w => ChineseCandidates(st, w);
    var missing, corrected, log;
    missing, corrected, log, outcomes := ApplyEdits(st, sentence, errors, cands);
    if missing {
      var k :| 0 <= k < |errors| && MissingConfusion(st, errors[k]);
      assert errors[k] in maybeErrors;
      return Err(KeyError), [], order, [];
    }
    applied := log;
    TracedOracle(st, cands, sentence, errors, outcomes);
    var detail := SortByKey(log, ByBegin());
    SameElements(log, detail);
    ChangesLogged(errors, outcomes);
    DetailJustified(st, cands, maybeErrors, errors, log, detail);
    DetailConfusions(st, maybeErrors, errors, log, detail);
    r := Ok((corrected, detail));
  }

  /** Every entry of the sorted edit log is a real change backed by one of the detector's spans. */
  lemma DetailJustified(st: CorrectorState, cands: Str -> set<Str>, maybeErrors: seq<Span>, errors: seq<Span>,
                        log: seq<Edit>, detail: seq<Edit>)
    requires CandidateOracle(st, cands)
    requires forall x :: x in errors <==> x in maybeErrors
    requires forall e :: e in detail <==> e in log
    requires forall m :: 0 <= m < |log| ==>
      log[m].wrong != log[m].right && exists k :: 0 <= k < |errors| && JustifiesWith(st, cands, errors[k], log[m])
    ensures forall e :: e in detail ==> e.wrong != e.right && Justified(st, e, maybeErrors)
  {
    forall e | e in detail ensures e.wrong != e.right && Justified(st, e, maybeErrors) {
      var m :| 0 <= m < |log| && log[m] == e;
      var k :| 0 <= k < |errors| && JustifiesWith(st, cands, errors[k], e);
      assert errors[k] in maybeErrors && Justifies(st, errors[k], e);
    }
  }

  /** Every differing custom confusion of the detector's spans is in the sorted edit log. */
  lemma DetailConfusions(st: CorrectorState, maybeErrors: seq<Span>, errors: seq<Span>,
                         log: seq<Edit>, detail: seq<Edit>)
    requires forall x :: x in errors <==> x in maybeErrors
    requires forall e :: e in detail <==> e in log
    requires forall k :: (0 <= k < |errors| && errors[k].kind == ConfusionError
      && errors[k].item in st.customConfusion && st.customConfusion[errors[k].item] != errors[k].item) ==>
      Edit(errors[k].item, st.customConfusion[errors[k].item], errors[k].begin, errors[k].end) in log
    ensures forall s :: (s in maybeErrors && s.kind == ConfusionError && s.item in st.customConfusion
      && st.customConfusion[s.item] != s.item) ==> Edit(s.item, st.customConfusion[s.item], s.begin, s.end) in detail
  {
    forall s | s in maybeErrors && s.kind == ConfusionError && s.item in st.customConfusion
      && st.customConfusion[s.item] != s.item
      ensures Edit(s.item, st.customConfusion[s.item], s.begin, s.end) in detail
    {
      var k :| 0 <= k < |errors| && errors[k] == s;
    }
  }

  /** Sorting by this key processes the spans that end last first. */
  function LaterFirst(): Span -> int {
    (s: Span) => -(s.end as int)
  }

  /** The detail is sorted by this key: the begin index of each edit. */
  function ByBegin(): Edit -> int {
    (e: Edit) => e.begin
  }

  /**
   * What a successful `correct` returns, in terms of its run: the spans in
   * the stable descending-end order, each with its `Decision` in the
   * sentence as the earlier changes left it; the sentence is the log
   * replayed, and the detail the log stably sorted by begin index.
   */
  ghost predicate Corrected(st: CorrectorState, sentence: Str, maybeErrors: seq<Span>, result: (Str, seq<Edit>),
                            applied: seq<Edit>, order: seq<Span>, outcomes: seq<Option<Str>>)
  {
    && SortedByKey(order, LaterFirst()) && SameKeyClasses(order, maybeErrors, LaterFirst())
    && |outcomes| == |order| && applied == Log(order, outcomes)
    && (forall k :: 0 <= k < |order| ==>
         Decision(st, ChineseCandidates(st, order[k].item), Seen(sentence, order, outcomes, k), order[k], outcomes[k]))
    && result.0 == Replay(sentence, applied)
    && SortedByKey(result.1, ByBegin()) && SameKeyClasses(result.1, applied, ByBegin())
  }

  /**
   * The loop of `correct` over spans sorted by descending end index: each
   * differing replacement is spliced into the current sentence and logged.
   * `missing` reports the KeyError of a confusion span without a custom
   * correction, which ends the loop.
   */
  method ApplyEdits(st: CorrectorState, sentence: Str, errors: seq<Span>, ghost cands: Str -> set<Str>)
    returns (missing: bool, corrected: Str, log: seq<Edit>, ghost outcomes: seq<Option<Str>>)
    requires CandidateOracle(st, cands)
    requires SortedByKey(errors, LaterFirst())
    ensures missing <==> exists k :: 0 <= k < |errors| && MissingConfusion(st, errors[k])
    ensures !missing ==> corrected == Replay(sentence, log)
    ensures !missing ==> |log| <= |errors|
    ensures !missing ==> forall m, l :: 0 <= m < l < |log| ==> log[m].end >= log[l].end
    ensures !missing ==> forall m :: 0 <= m < |log| ==>
      log[m].wrong != log[m].right && exists k :: 0 <= k < |errors| && JustifiesWith(st, cands, errors[k], log[m])
    ensures !missing ==> forall k :: (0 <= k < |errors| && errors[k].kind == ConfusionError
      && errors[k].item in st.customConfusion && st.customConfusion[errors[k].item] != errors[k].item) ==>
      Edit(errors[k].item, st.customConfusion[errors[k].item], errors[k].begin, errors[k].end) in log
    ensures !missing ==> |outcomes| == |errors| && log == Log(errors, outcomes)
    ensures !missing ==> Traced(st, cands, sentence, errors, outcomes)
  {
    ghost var sources;
    missing, corrected, log, sources, outcomes := ProcessSpans(st, sentence, errors, cands);
    if !missing {
      ProcessedAll(st, cands, sentence, errors, corrected, log, sources);
    }
  }

  /** The loop itself; `sources[m]` is the span that produced `log[m]`. */
  method ProcessSpans(st: CorrectorState, sentence: Str, errors: seq<Span>, ghost cands: Str -> set<Str>)
    returns (missing: bool, corrected: Str, log: seq<Edit>, ghost sources: seq<nat>, ghost outcomes: seq<Option<Str>>)
    requires CandidateOracle(st, cands)
    requires SortedByKey(errors, LaterFirst())
    ensures missing <==> exists k :: 0 <= k < |errors| && MissingConfusion(st, errors[k])
    ensures !missing ==> Processed(st, cands, sentence, errors, |errors|, corrected, log, sources)
    ensures !missing ==> TraceAt(st, cands, sentence, errors, |errors|, log, outcomes)
  {
    sources := [];
    log := [];
    outcomes := [];
    corrected := sentence;
    for i := 0 to |errors|
      invariant NoneMissing(st, errors, i)
      invariant Processed(st, cands, sentence, errors, i, corrected, log, sources)
      invariant TraceAt(st, cands, sentence, errors, i, log, outcomes)
    {
      missing, corrected, log, sources, outcomes :=
        ProcessSpan(st, sentence, errors, i, corrected, log, sources, outcomes, cands);
      if missing {
        return;
      }
    }
    missing := false;
  }

  /** No span before `i` raises KeyError. */
  ghost predicate NoneMissing(st: CorrectorState, errors: seq<Span>, i: nat) {
    forall k :: 0 <= k < i && k < |errors| ==> !MissingConfusion(st, errors[k])
  }

  /** One turn of the loop: span `i` is corrected in the current sentence, or raises KeyError. */
  method ProcessSpan(st: CorrectorState, sentence: Str, errors: seq<Span>, i: nat,
                     corrected: Str, log: seq<Edit>, ghost sources: seq<nat>, ghost outcomes: seq<Option<Str>>,
                     ghost cands: Str -> set<Str>)
    returns (missing: bool, corrected': Str, log': seq<Edit>, ghost sources': seq<nat>, ghost outcomes': seq<Option<Str>>)
    requires i < |errors| && CandidateOracle(st, cands) && SortedByKey(errors, LaterFirst())
    requires Processed(st, cands, sentence, errors, i, corrected, log, sources)
    requires TraceAt(st, cands, sentence, errors, i, log, outcomes)
    requires NoneMissing(st, errors, i)
    ensures missing <==> MissingConfusion(st, errors[i])
    ensures !missing ==> NoneMissing(st, errors, i + 1)
    ensures !missing ==> Processed(st, cands, sentence, errors, i + 1, corrected', log', sources')
    ensures !missing ==> TraceAt(st, cands, sentence, errors, i + 1, log', outcomes')
  {
    var span := errors[i];
    var choice := CorrectItemWith(st, corrected, span, cands);
    if choice.Err? {
      return true, corrected, log, sources, outcomes;
    }
    missing := false;
    outcomes' := outcomes + [ChangeOf(span, choice.value)];
    TraceStep(st, cands, sentence, errors, log, outcomes, ChangeOf(span, choice.value));
    if choice.value.None? || choice.value.value == span.item {
      ProcessedSkip(st, cands, sentence, errors, i, corrected, log, sources);
      corrected', log', sources' := corrected, log, sources;
    } else {
      var correctedItem := choice.value.value;
      var e := Edit(span.item, correctedItem, span.begin, span.end);
      ProcessedEdit(st, cands, sentence, errors, i, corrected, log, sources, e);
      corrected' := Splice(corrected, span.begin, span.end, correctedItem);
      log' := log + [e];
      sources' := sources + [i];
    }
  }

  /**
   * The edit log that the per-span outcomes build, `outcomes[k]` being the
   * text spliced in at `order[k]` (`None` where the span stays).
   */
  function Log(order: seq<Span>, outcomes: seq<Option<Str>>): (r: seq<Edit>)
    requires |outcomes| <= |order|
    ensures |r| <= |outcomes|
    decreases |outcomes|
  {
    if outcomes == [] then []
    else
      var n := |outcomes| - 1;
      Log(order, outcomes[..n]) + (if outcomes[n].Some? then [EditOf(order[n], outcomes[n].value)] else [])
  }

  lemma LogSnoc(order: seq<Span>, outcomes: seq<Option<Str>>, o: Option<Str>)
    requires |outcomes| < |order|
    ensures Log(order, outcomes + [o]) ==
      Log(order, outcomes) + (if o.Some? then [EditOf(order[|outcomes|], o.value)] else [])
  {
    assert (outcomes + [o])[..|outcomes|] == outcomes;
  }

  /** An edit is logged exactly when some span's outcome writes it. */
  lemma {:induction false} LogMembers(order: seq<Span>, outcomes: seq<Option<Str>>, e: Edit)
    requires |outcomes| <= |order|
    ensures e in Log(order, outcomes) <==>
      exists k :: 0 <= k < |outcomes| && outcomes[k].Some? && e == EditOf(order[k], outcomes[k].value)
    decreases |outcomes|
  {
    if outcomes != [] {
      var n := |outcomes| - 1;
      LogMembers(order, outcomes[..n], e);
      if k :| 0 <= k < |outcomes| && outcomes[k].Some? && e == EditOf(order[k], outcomes[k].value) {
        if k < n {
          assert outcomes[..n][k] == outcomes[k];
        }
      }
      if k :| 0 <= k < n && outcomes[..n][k].Some? && e == EditOf(order[k], outcomes[..n][k].value) {
        assert outcomes[k] == outcomes[..n][k];
      }
    }
  }

  /** Every outcome that changes its span has its edit in the log. */
  lemma ChangesLogged(order: seq<Span>, outcomes: seq<Option<Str>>)
    requires |outcomes| <= |order|
    ensures forall k :: 0 <= k < |outcomes| && outcomes[k].Some? ==> EditOf(order[k], outcomes[k].value) in Log(order, outcomes)
  {
    forall k | 0 <= k < |outcomes| && outcomes[k].Some?
      ensures EditOf(order[k], outcomes[k].value) in Log(order, outcomes)
    {
      LogMembers(order, outcomes, EditOf(order[k], outcomes[k].value));
    }
  }

  /** The sentence span `k` of `order` meets: the edits of the spans before it applied. */
  function Seen(sentence: Str, order: seq<Span>, outcomes: seq<Option<Str>>, k: nat): Str
    requires k <= |outcomes| <= |order|
  {
    Replay(sentence, Log(order, outcomes[..k]))
  }

  /** Each outcome so far is the `Decision` for its span in the sentence that span met. */
  ghost predicate Traced(st: CorrectorState, cands: Str -> set<Str>, sentence: Str, errors: seq<Span>,
                         outcomes: seq<Option<Str>>)
  {
    && |outcomes| <= |errors|
    && forall k :: 0 <= k < |outcomes| ==>
         Decision(st, cands(errors[k].item), Seen(sentence, errors, outcomes, k), errors[k], outcomes[k])
  }

  /** The trace of the loop after the first `i` spans: one outcome per span, building the log. */
  ghost predicate TraceAt(st: CorrectorState, cands: Str -> set<Str>, sentence: Str, errors: seq<Span>, i: nat,
                          log: seq<Edit>, outcomes: seq<Option<Str>>)
  {
    && |outcomes| == i <= |errors|
    && log == Log(errors, outcomes)
    && Traced(st, cands, sentence, errors, outcomes)
  }

  /** With the corrector's own candidate sets, the trace speaks of `ChineseCandidates`. */
  lemma TracedOracle(st: CorrectorState, cands: Str -> set<Str>, sentence: Str, errors: seq<Span>,
                     outcomes: seq<Option<Str>>)
    requires CandidateOracle(st, cands) && Traced(st, cands, sentence, errors, outcomes)
    ensures forall k :: 0 <= k < |outcomes| ==>
      Decision(st, ChineseCandidates(st, errors[k].item), Seen(sentence, errors, outcomes, k), errors[k], outcomes[k])
  {
    forall k | 0 <= k < |outcomes|
      ensures Decision(st, ChineseCandidates(st, errors[k].item), Seen(sentence, errors, outcomes, k), errors[k], outcomes[k])
    {
      assert cands(errors[k].item) == ChineseCandidates(st, errors[k].item);
    }
  }

  /** Deciding the next span in the sentence the log has built extends the trace. */
  lemma TraceStep(st: CorrectorState, cands: Str -> set<Str>, sentence: Str, errors: seq<Span>,
                  log: seq<Edit>, outcomes: seq<Option<Str>>, o: Option<Str>)
    requires |outcomes| < |errors| && log == Log(errors, outcomes)
    requires Traced(st, cands, sentence, errors, outcomes)
    requires Decision(st, cands(errors[|outcomes|].item), Replay(sentence, log), errors[|outcomes|], o)
    ensures Traced(st, cands, sentence, errors, outcomes + [o])
    ensures Log(errors, outcomes + [o]) ==
      log + (if o.Some? then [EditOf(errors[|outcomes|], o.value)] else [])
  {
    var next := outcomes + [o];
    LogSnoc(errors, outcomes, o);
    forall k | 0 <= k < |next|
      ensures Decision(st, cands(errors[k].item), Seen(sentence, errors, next, k), errors[k], next[k])
    {
      SeenSnoc(sentence, errors, outcomes, o, k);
      if k < |outcomes| {
        assert next[k] == outcomes[k];
      } else {
        assert outcomes[..k] == outcomes;
      }
    }
  }

  /** A later outcome does not change the sentence an earlier span met. */
  lemma SeenSnoc(sentence: Str, order: seq<Span>, outcomes: seq<Option<Str>>, o: Option<Str>, k: nat)
    requires k <= |outcomes| < |order|
    ensures Seen(sentence, order, outcomes + [o], k) == Seen(sentence, order, outcomes, k)
  {
    assert (outcomes + [o])[..k] == outcomes[..k];
  }

  /** The invariant after the last span gives the postcondition of `ApplyEdits`. */
  lemma ProcessedAll(st: CorrectorState, cands: Str -> set<Str>, sentence: Str, errors: seq<Span>,
                     corrected: Str, log: seq<Edit>, sources: seq<nat>)
    requires Processed(st, cands, sentence, errors, |errors|, corrected, log, sources)
    ensures corrected == Replay(sentence, log)
    ensures |log| <= |errors|
    ensures forall m, l :: 0 <= m < l < |log| ==> log[m].end >= log[l].end
    ensures forall m :: 0 <= m < |log| ==>
      log[m].wrong != log[m].right && exists k :: 0 <= k < |errors| && JustifiesWith(st, cands, errors[k], log[m])
    ensures forall k :: (0 <= k < |errors| && errors[k].kind == ConfusionError
      && errors[k].item in st.customConfusion && st.customConfusion[errors[k].item] != errors[k].item) ==>
      Edit(errors[k].item, st.customConfusion[errors[k].item], errors[k].begin, errors[k].end) in log
  {
    forall m | 0 <= m < |log|
      ensures exists k :: 0 <= k < |errors| && JustifiesWith(st, cands, errors[k], log[m])
    {
      assert JustifiesWith(st, cands, errors[sources[m]], log[m]);
    }
  }

  /**
   * The loop invariant of `ApplyEdits` after the first `i` spans: the sentence
   * is the log replayed, the log is ordered by descending end and each entry
   * is a real change backed by the span at `sources[m]`, and every differing
   * custom confusion seen so far is in the log.
   */
  ghost predicate Processed(st: CorrectorState, cands: Str -> set<Str>, sentence: Str, errors: seq<Span>, i: nat,
                            corrected: Str, log: seq<Edit>, sources: seq<nat>)
  {
    && i <= |errors|
    && corrected == Replay(sentence, log)
    && |log| == |sources| <= i
    && EndsOrdered(errors, i, log)
    && Backed(st, cands, errors, i, log, sources)
    && ConfusionsLogged(st, errors, i, log)
  }

  /** The log is ordered by descending end, and no span still to come ends later than a logged edit. */
  ghost predicate EndsOrdered(errors: seq<Span>, i: nat, log: seq<Edit>) {
    && (forall m, l :: 0 <= m < l < |log| ==> log[m].end >= log[l].end)
    && (i < |errors| ==> forall m :: 0 <= m < |log| ==> log[m].end >= errors[i].end)
  }

  /** Each logged edit is a real change backed by an already processed span. */
  ghost predicate Backed(st: CorrectorState, cands: Str -> set<Str>, errors: seq<Span>, i: nat,
                         log: seq<Edit>, sources: seq<nat>)
    requires |log| == |sources|
  {
    forall m :: 0 <= m < |log| ==>
      sources[m] < i && sources[m] < |errors| && log[m].wrong != log[m].right
      && JustifiesWith(st, cands, errors[sources[m]], log[m])
  }

  /** Every processed confusion span whose custom correction differs has its edit logged. */
  ghost predicate ConfusionsLogged(st: CorrectorState, errors: seq<Span>, i: nat, log: seq<Edit>) {
    forall k :: (0 <= k < i && k < |errors| && errors[k].kind == ConfusionError && errors[k].item in st.customConfusion
      && st.customConfusion[errors[k].item] != errors[k].item) ==>
      Edit(errors[k].item, st.customConfusion[errors[k].item], errors[k].begin, errors[k].end) in log
  }

  /** Skipping span `i` (no replacement, or the same text) keeps the invariant. */
  lemma ProcessedSkip(st: CorrectorState, cands: Str -> set<Str>, sentence: Str, errors: seq<Span>, i: nat,
                      corrected: Str, log: seq<Edit>, sources: seq<nat>)
    requires i < |errors| && SortedByKey(errors, LaterFirst())
    requires Processed(st, cands, sentence, errors, i, corrected, log, sources)
    requires errors[i].kind == ConfusionError && errors[i].item in st.customConfusion ==>
      st.customConfusion[errors[i].item] == errors[i].item
    ensures Processed(st, cands, sentence, errors, i + 1, corrected, log, sources)
  {
    EndsOrderedSkip(errors, i, log);
    BackedSkip(st, cands, errors, i, log, sources);
    ConfusionsLoggedSkip(st, errors, i, log);
  }

  lemma EndsOrderedSkip(errors: seq<Span>, i: nat, log: seq<Edit>)
    requires i < |errors| && SortedByKey(errors, LaterFirst())
    requires EndsOrdered(errors, i, log)
    ensures EndsOrdered(errors, i + 1, log)
  {
    if i + 1 < |errors| {
      assert LaterFirst()(errors[i]) <= LaterFirst()(errors[i + 1]);
    }
  }

  lemma BackedSkip(st: CorrectorState, cands: Str -> set<Str>, errors: seq<Span>, i: nat,
                   log: seq<Edit>, sources: seq<nat>)
    requires i < |errors| && |log| == |sources|
    requires Backed(st, cands, errors, i, log, sources)
    ensures Backed(st, cands, errors, i + 1, log, sources)
  {
  }

  lemma ConfusionsLoggedSkip(st: CorrectorState, errors: seq<Span>, i: nat, log: seq<Edit>)
    requires i < |errors|
    requires ConfusionsLogged(st, errors, i, log)
    requires errors[i].kind == ConfusionError && errors[i].item in st.customConfusion ==>
      st.customConfusion[errors[i].item] == errors[i].item
    ensures ConfusionsLogged(st, errors, i + 1, log)
  {
  }

  /** Logging the edit `e` made at span `i` keeps the invariant. */
  lemma ProcessedEdit(st: CorrectorState, cands: Str -> set<Str>, sentence: Str, errors: seq<Span>, i: nat,
                      corrected: Str, log: seq<Edit>, sources: seq<nat>, e: Edit)
    requires i < |errors| && SortedByKey(errors, LaterFirst())
    requires Processed(st, cands, sentence, errors, i, corrected, log, sources)
    requires e.wrong != e.right && e.end == errors[i].end && JustifiesWith(st, cands, errors[i], e)
    ensures Processed(st, cands, sentence, errors, i + 1, Splice(corrected, e.begin, e.end, e.right),
                      log + [e], sources + [i])
  {
    ReplaySnoc(sentence, log, e);
    EndsOrderedEdit(errors, i, log, e);
    BackedEdit(st, cands, errors, i, log, sources, e);
    ConfusionsLoggedEdit(st, errors, i, log, e);
  }

  lemma EndsOrderedEdit(errors: seq<Span>, i: nat, log: seq<Edit>, e: Edit)
    requires i < |errors| && SortedByKey(errors, LaterFirst())
    requires EndsOrdered(errors, i, log) && e.end == errors[i].end
    ensures EndsOrdered(errors, i + 1, log + [e])
  {
    if i + 1 < |errors| {
      assert LaterFirst()(errors[i]) <= LaterFirst()(errors[i + 1]);
    }
  }

  lemma BackedEdit(st: CorrectorState, cands: Str -> set<Str>, errors: seq<Span>, i: nat,
                   log: seq<Edit>, sources: seq<nat>, e: Edit)
    requires i < |errors| && |log| == |sources|
    requires Backed(st, cands, errors, i, log, sources)
    requires e.wrong != e.right && JustifiesWith(st, cands, errors[i], e)
    ensures Backed(st, cands, errors, i + 1, log + [e], sources + [i])
  {
  }

  lemma ConfusionsLoggedEdit(st: CorrectorState, errors: seq<Span>, i: nat, log: seq<Edit>, e: Edit)
    requires i < |errors| && e.end == errors[i].end
    requires ConfusionsLogged(st, errors, i, log)
    requires errors[i].kind == ConfusionError && errors[i].item in st.customConfusion ==>
      e == Edit(errors[i].item, st.customConfusion[errors[i].item], errors[i].begin, errors[i].end)
    ensures ConfusionsLogged(st, errors, i + 1, log + [e])
  {
    forall k | 0 <= k < i + 1 && k < |errors| && errors[k].kind == ConfusionError && errors[k].item in st.customConfusion
      && st.customConfusion[errors[k].item] != errors[k].item
      ensures Edit(errors[k].item, st.customConfusion[errors[k].item], errors[k].begin, errors[k].end) in log + [e]
    {
      if k < i {
        assert Edit(errors[k].item, st.customConfusion[errors[k].item], errors[k].begin, errors[k].end) in log;
      }
    }
  }

  // ---------------------------------------------------------------- evaluation labels

  /** `[0 if a == b else 1 for a, b in zip(x, y)]`: 1 where the two strings differ. */
  function MismatchLabels(x: Str, y: Str): (r: seq<int>)
    ensures |r| == Min(|x|, |y|)
    ensures forall i :: 0 <= i < |r| ==> (r[i] == 1 <==> x[i] != y[i]) && (r[i] == 0 <==> x[i] == y[i])
  {
    seq(Min(|x|, |y|), i requires 0 <= i < Min(|x|, |y|) => if x[i] == y[i] then 0 else 1)
  }

  /** Position `k` lies inside some span. */
  predicate Covered(spans: seq<Span>, k: int) {
    exists s :: s in spans && s.begin <= k < s.end
  }

  lemma CoveredSnoc(spans: seq<Span>, t: nat, k: int)
    requires t < |spans|
    ensures Covered(spans[..t + 1], k) <==> Covered(spans[..t], k) || spans[t].begin <= k < spans[t].end
  {
    assert spans[..t + 1] == spans[..t] + [spans[t]];
    if spans[t].begin <= k < spans[t].end {
      assert spans[t] in spans[..t + 1];
    }
    if Covered(spans[..t], k) {
      var s :| s in spans[..t] && s.begin <= k < s.end;
      assert s in spans[..t + 1];
    }
  }

  /**
   * The detection-phase labels: 1 at every position inside a span, 0
   * elsewhere; a span reaching past the `n` labels raises IndexError.
   */
  method DetectionLabels(n: nat, spans: seq<Span>) returns (r: Result<seq<int>>)
    ensures r.Ok? <==> forall s :: s in spans && s.begin < s.end ==> s.end <= n
    ensures r.Err? ==> r.error == IndexError
    ensures r.Ok? ==> |r.value| == n && forall k :: 0 <= k < n ==> r.value[k] == if Covered(spans, k) then 1 else 0
  {
    var phase1Pred := new int[n](_ => 0);
    for t := 0 to |spans|
      invariant forall k :: 0 <= k < n ==> phase1Pred[k] == if Covered(spans[..t], k) then 1 else 0
      invariant forall s :: s in spans[..t] && s.begin < s.end ==> s.end <= n
    {
      var span := spans[t];
      assert spans[..t + 1] == spans[..t] + [span];
      var i := 0;
      while i < span.end - span.begin
        invariant 0 <= i && (span.begin < span.end ==> i <= span.end - span.begin)
        invariant span.end <= span.begin ==> i == 0
        invariant i > 0 ==> span.begin + i <= n
        invariant forall k :: 0 <= k < n ==>
          phase1Pred[k] == if Covered(spans[..t], k) || span.begin <= k < span.begin + i then 1 else 0
      {
        if span.begin + i >= n {
          assert span in spans;
          return Err(IndexError);
        }
        phase1Pred[span.begin + i] := 1;
        i := i + 1;
      }
      assert span.begin < span.end ==> i == span.end - span.begin;
      forall k | 0 <= k < n
        ensures phase1Pred[k] == if Covered(spans[..t + 1], k) then 1 else 0
      {
        CoveredSnoc(spans, t, k);
      }
    }
    assert spans[..|spans|] == spans;
    return Ok(phase1Pred[..]);
  }

  /** What `correct` returns: without a reference sentence, or with the three label lists. */
  datatype Outcome =
    | Plain(sentence: Str, detail: seq<Edit>)
    | Labelled(sentence: Str, detail: seq<Edit>, phase1Golden: seq<int>, phase1Pred: seq<int>, phase2Pred: seq<int>)

  /** Some span reaches past the `n` detection labels. */
  predicate LabelOverrun(spans: seq<Span>, n: nat) {
    exists s :: s in spans && s.begin < s.end && s.end > n
  }

  /**
   * `correct(sentence, golden)`: a non-empty reference sentence also yields the
   * detection labels against it and the mismatch labels before and after
   * correction. The detection labels are filled before any span is corrected,
   * so their IndexError comes before a KeyError of the correction loop.
   */
  method CorrectWithGolden(st: CorrectorState, sentence: Str, golden: Str, maybeErrors: seq<Span>)
    returns (r: Result<Outcome>, ghost applied: seq<Edit>, ghost order: seq<Span>, ghost outcomes: seq<Option<Str>>)
    ensures r.Err? <==> (golden != [] && LabelOverrun(maybeErrors, Min(|sentence|, |golden|)))
                        || exists s :: s in maybeErrors && MissingConfusion(st, s)
    ensures golden != [] && LabelOverrun(maybeErrors, Min(|sentence|, |golden|)) ==> r == Err(IndexError)
    ensures r.Err? && !(golden != [] && LabelOverrun(maybeErrors, Min(|sentence|, |golden|))) ==>
      r.error == KeyError
    ensures r.Ok? && golden == [] ==> r.value.Plain?
    ensures r.Ok? && golden != [] ==> (r.value.Labelled?
      && r.value.phase1Golden == MismatchLabels(sentence, golden)
      && r.value.phase2Pred == MismatchLabels(r.value.sentence, golden)
      && |r.value.phase1Pred| == Min(|sentence|, |golden|)
      && (forall k :: 0 <= k < |r.value.phase1Pred| ==> r.value.phase1Pred[k] == if Covered(maybeErrors, k) then 1 else 0))
    ensures r.Ok? ==> Corrected(st, sentence, maybeErrors, (r.value.sentence, r.value.detail), applied, order, outcomes)
    ensures r.Ok? ==> (SortedByKey(r.value.detail, ByBegin())
      && (forall e :: e in r.value.detail ==> e.wrong != e.right && Justified(st, e, maybeErrors)))
  {
    applied, order, outcomes := [], [], [];
    if golden == [] {
      var corrected;
      corrected, applied, order, outcomes := Correct(st, sentence, maybeErrors);
      if corrected.Err? {
        return Err(corrected.error), applied, order, outcomes;
      }
      return Ok(Plain(corrected.value.0, corrected.value.1)), applied, order, outcomes;
    }
    var phase1Golden := MismatchLabels(sentence, golden);
    var phase1Pred := DetectionLabels(|phase1Golden|, maybeErrors);
    if phase1Pred.Err? {
      return Err(phase1Pred.error), applied, order, outcomes;
    }
    var corrected;
    corrected, applied, order, outcomes := Correct(st, sentence, maybeErrors);
    if corrected.Err? {
      return Err(corrected.error), applied, order, outcomes;
    }
    var phase2Pred := MismatchLabels(corrected.value.0, golden);
    r := Ok(Labelled(corrected.value.0, corrected.value.1, phase1Golden, phase1Pred.value, phase2Pred));
  }
}
