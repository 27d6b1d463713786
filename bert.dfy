/**
 * The BERT corrector (`pycorrector/bert/bert_corrector.py`): character
 * errors are re-predicted by a masked language model, one span at a time.
 *
 * The tokenizer's vocabulary and id mapping, the model's argmax prediction at
 * a position, and `is_chinese_string` are fields of a `BertModel` value; the
 * spans come from the detector, as in the statistical corrector.
 */
module Bert {
  import opened Wrappers
  import opened PyStr
  import opened Sorting
  import Corrector

  type Span = Corrector.Span
  type Edit = Corrector.Edit

  /**
   * `vocab` is the set of tokens of `bert_tokenizer.vocab`, `tokenToId` its
   * id mapping, `idToToken` the reverse, and `predict(inputIds, segmentIds, i)`
   * the argmax of the model's scores at position `i`.
   */
  datatype BertModel = BertModel(
    vocab: set<Str>,
    tokenToId: Str -> int,
    idToToken: int -> Str,
    predict: (seq<int>, seq<int>, nat) -> int,
    maskId: int,
    maxSeqLength: int,
    customConfusion: map<Str, Str>,
    isChineseString: Str -> bool)

  const Cls: Str := "[CLS]"
  const Sep: Str := "[SEP]"
  const Mask: Str := "[MASK]"

  /** `InputFeatures` */
  datatype Features = Features(inputIds: seq<int>, inputMask: seq<int>, maskIds: seq<nat>,
                               segmentIds: seq<int>, inputTokens: seq<Str>)

  // ---------------------------------------------------------------------
  // convert_sentence_to_features
  // ---------------------------------------------------------------------

  /** `["[CLS]"] + list(sentence) + ["[SEP]"]` */
  function Framed(s: Str): (r: seq<Str>)
    ensures |r| == |s| + 2 && r[0] == Cls && r[|s| + 1] == Sep
    ensures forall p :: 1 <= p <= |s| ==> r[p] == [s[p - 1]]
  {
    [Cls] + seq(|s|, i requires 0 <= i < |s| => [s[i]]) + [Sep]
  }

  /** The tokens with positions `begin + 1 .. end` replaced by `[MASK]`. */
  function Masked(tokens: seq<Str>, begin: nat, end: nat): seq<Str> {
    seq(|tokens|, p requires 0 <= p < |tokens| => if begin + 1 <= p <= end then Mask else tokens[p])
  }

  /** `[0] * n`, empty for a negative `n`. */
  function Zeros(n: int): seq<int> {
    seq(Max(0, n), _ => 0)
  }

  /** `[i for i, v in enumerate(ids) if v == target]` */
  function PositionsOf(ids: seq<int>, target: int): (r: seq<nat>)
    ensures forall p: nat :: p in r <==> p < |ids| && ids[p] == target
    decreases |ids|
  {
    if ids == [] then []
    else
      var n := |ids| - 1;
      var init := PositionsOf(ids[..n], target);
      assert forall p :: 0 <= p < n ==> ids[..n][p] == ids[p];
      if ids[n] == target then init + [n] else init
  }

  predicate Increasing(r: seq<nat>) {
    forall a, b :: 0 <= a < b < |r| ==> r[a] < r[b]
  }

  /** The positions are listed in increasing order. */
  lemma {:induction false} PositionsIncreasing(ids: seq<int>, target: int)
    ensures Increasing(PositionsOf(ids, target))
    decreases |ids|
  {
    if ids != [] {
      var n := |ids| - 1;
      var init := PositionsOf(ids[..n], target);
      PositionsIncreasing(ids[..n], target);
      if ids[n] == target {
        var r := init + [n];
        assert PositionsOf(ids, target) == r;
        forall a, b | 0 <= a < b < |r| ensures r[a] < r[b] {
          var p: nat := init[a];
          assert p in init && r[a] == p;
          if b < |init| {
            assert r[b] == init[b];
          }
        }
      }
    }
  }

  /** There are no positions exactly when no id equals the target. */
  lemma NoPositions(ids: seq<int>, target: int)
    ensures PositionsOf(ids, target) == [] <==> forall p :: 0 <= p < |ids| ==> ids[p] != target
  {
    var r := PositionsOf(ids, target);
    if r != [] {
      assert r[0] in r;
    }
  }

  /** Masking runs past `[SEP]`: `tokens[k]` raises `IndexError`. */
  predicate MaskOverruns(s: Str, begin: nat, end: nat) {
    begin < end && end > |s| + 1
  }

  /** The features of a sentence whose span can be masked. */
  function FeaturesOf(m: BertModel, s: Str, begin: nat, end: nat): Features
    requires !MaskOverruns(s, begin, end)
  {
    var tokens := Masked(Framed(s), begin, end);
    var ids := seq(|tokens|, p requires 0 <= p < |tokens| => m.tokenToId(tokens[p]));
    var padding := Zeros(m.maxSeqLength - |ids|);
    Features(ids + padding, seq(|ids|, _ => 1) + padding, PositionsOf(ids, m.maskId),
             Zeros(|tokens|) + padding, tokens)
  }

  /** The masking loop: `tokens[k] = '[MASK]'` for `end - begin` positions from `begin + 1`. */
  method MaskSpan(tokens: array<Str>, begin: nat, end: nat) returns (ok: bool)
    modifies tokens
    ensures ok <==> !(begin < end && end >= tokens.Length)
    ensures ok ==> tokens[..] == Masked(old(tokens[..]), begin, end)
  {
    ghost var original := tokens[..];
    var k := begin + 1;
    var count := if end > begin then end - begin else 0;
    for i := 0 to count
      invariant k == begin + 1 + i
      invariant i > 0 ==> begin + i < tokens.Length
      invariant tokens[..] == Masked(original, begin, begin + i)
    {
      if k >= tokens.Length {
        return false;
      }
      tokens[k] := Mask;
      k := k + 1;
    }
    assert count > 0 ==> begin + count == end;
    return true;
  }

  method ConvertSentenceToFeatures(m: BertModel, sentence: Str, begin: nat, end: nat)
    returns (r: Result<Features>)
    ensures r.Err? <==> MaskOverruns(sentence, begin, end)
    ensures r.Err? ==> r.error == IndexError
    ensures r.Ok? ==> r.value == FeaturesOf(m, sentence, begin, end)
  {
    var n := |sentence| + 2;
    var tokens := new Str[n](p requires 0 <= p < n reads {} =>
      if p == 0 then Cls else if p == n - 1 then Sep else [sentence[p - 1]]);
    assert tokens[..] == Framed(sentence);
    var ok := MaskSpan(tokens, begin, end);
    if !ok {
      return Err(IndexError);
    }
    var inputTokens := tokens[..];
    var segmentIds := Zeros(|inputTokens|);
    var inputIds := seq(|inputTokens|, p requires 0 <= p < |inputTokens| => m.tokenToId(inputTokens[p]));
    var maskIds := PositionsOf(inputIds, m.maskId);
    var inputMask := seq(|inputIds|, _ => 1);
    var padding := Zeros(m.maxSeqLength - |inputIds|);
    inputIds := inputIds + padding;
    inputMask := inputMask + padding;
    segmentIds := segmentIds + padding;
    r := Ok(Features(inputIds, inputMask, maskIds, segmentIds, inputTokens));
  }

  /**
   * The tokens are the framed sentence with exactly the span's positions
   * masked; the three id lists are padded with zeros to `max_seq_length`,
   * the input mask is 1 on the tokens and 0 on the padding, the segment ids
   * are all 0, and the mask positions are where the ids equal `MASK_ID`.
   */
  lemma FeaturesShape(m: BertModel, s: Str, begin: nat, end: nat)
    requires !MaskOverruns(s, begin, end)
    ensures var f := FeaturesOf(m, s, begin, end);
      && |f.inputTokens| == |s| + 2
      && f.inputTokens[0] == Cls
      && (forall p :: 0 <= p < |s| + 2 ==>
            f.inputTokens[p] == if begin + 1 <= p <= end then Mask else Framed(s)[p])
      && |f.inputIds| == |f.inputMask| == |f.segmentIds| == Max(m.maxSeqLength, |s| + 2)
      && (forall p :: 0 <= p < |f.inputMask| ==> f.inputMask[p] == if p < |s| + 2 then 1 else 0)
      && (forall p :: 0 <= p < |f.segmentIds| ==> f.segmentIds[p] == 0)
      && (forall p :: 0 <= p < |f.inputIds| ==>
            f.inputIds[p] == if p < |s| + 2 then m.tokenToId(f.inputTokens[p]) else 0)
      && (forall p: nat :: p in f.maskIds <==> p < |s| + 2 && m.tokenToId(f.inputTokens[p]) == m.maskId)
  {
  }

  /** Only `[MASK]` has the id `MASK_ID`. */
  ghost predicate MaskIdUnique(m: BertModel) {
    forall t :: m.tokenToId(t) == m.maskId <==> t == Mask
  }

  /**
   * With a vocabulary in which only `[MASK]` has the id `MASK_ID`, the mask
   * positions are exactly `begin + 1 .. end`, provided the sentence holds no
   * `[MASK]` of its own (a sentence's tokens are single characters).
   */
  lemma MaskIdsAreSpan(m: BertModel, s: Str, begin: nat, end: nat)
    requires !MaskOverruns(s, begin, end) && MaskIdUnique(m)
    ensures forall p: nat :: p in FeaturesOf(m, s, begin, end).maskIds <==> begin + 1 <= p <= end && p < |s| + 2
  {
    var f := FeaturesOf(m, s, begin, end);
    forall p | 0 <= p < |s| + 2 && !(begin + 1 <= p <= end)
      ensures m.tokenToId(f.inputTokens[p]) != m.maskId
    {
      assert f.inputTokens[p] == Framed(s)[p];
      assert |Framed(s)[p]| != |Mask|;
    }
  }

  // ---------------------------------------------------------------------
  // check_vocab_has_all_token
  // ---------------------------------------------------------------------

  /** Every character of the sentence is a vocabulary token. */
  predicate InVocab(m: BertModel, s: Str) {
    forall i :: 0 <= i < |s| ==> [s[i]] in m.vocab
  }

  method CheckVocabHasAllToken(m: BertModel, sentence: Str) returns (flag: bool)
    ensures flag <==> InVocab(m, sentence)
    ensures !flag ==> exists i :: 0 <= i < |sentence| && [sentence[i]] !in m.vocab
  {
    flag := true;
    for i := 0 to |sentence|
      invariant flag <==> forall j :: 0 <= j < i ==> [sentence[j]] in m.vocab
    {
      if [sentence[i]] !in m.vocab {
        flag := false;
        break;
      }
    }
  }

  // ---------------------------------------------------------------------
  // bert_lm_infer
  // ---------------------------------------------------------------------

  /**
   * The replacement for `sentence[begin:end]`: the prediction at the last
   * mask position, or the span itself when there is none.
   */
  function Infer(m: BertModel, s: Str, begin: nat, end: nat): Result<Str> {
    if MaskOverruns(s, begin, end) then Err(IndexError)
    else
      var f := FeaturesOf(m, s, begin, end);
      if f.maskIds == [] then Ok(Slice(s, begin, end))
      else Ok(m.idToToken(m.predict(f.inputIds, f.segmentIds, f.maskIds[|f.maskIds| - 1])))
  }

  method BertLmInfer(m: BertModel, sentence: Str, begin: nat, end: nat) returns (r: Result<Str>)
    ensures r == Infer(m, sentence, begin, end)
  {
    var correctedItem := Slice(sentence, begin, end);
    var evalFeatures := ConvertSentenceToFeatures(m, sentence, begin, end);
    if evalFeatures.Err? {
      return Err(evalFeatures.error);
    }
    var f := evalFeatures.value;
    var maskedIds := f.maskIds;
    if maskedIds != [] {
      for idx := 0 to |maskedIds|
        invariant idx > 0 ==> correctedItem == m.idToToken(m.predict(f.inputIds, f.segmentIds, maskedIds[idx - 1]))
      {
        var i := maskedIds[idx];
        var predictedIndex := m.predict(f.inputIds, f.segmentIds, i);
        var predictedToken := m.idToToken(predictedIndex);
        correctedItem := predictedToken;
      }
    }
    r := Ok(correctedItem);
  }

  /**
   * Only the last masked position decides: with a well-formed span and a
   * vocabulary in which only `[MASK]` has the id `MASK_ID`, the replacement
   * is the prediction at position `end` (the span's last character), and a
   * span with `end <= begin` is returned as it is.
   */
  lemma InferUsesLastPosition(m: BertModel, s: Str, begin: nat, end: nat)
    requires end <= |s| + 1 && MaskIdUnique(m)
    ensures var f := FeaturesOf(m, s, begin, end);
      Infer(m, s, begin, end)
      == if begin < end then Ok(m.idToToken(m.predict(f.inputIds, f.segmentIds, end)))
         else Ok(Slice(s, begin, end))
  {
    var f := FeaturesOf(m, s, begin, end);
    MaskIdsAreSpan(m, s, begin, end);
    var tokens := Masked(Framed(s), begin, end);
    var ids := seq(|tokens|, p requires 0 <= p < |tokens| => m.tokenToId(tokens[p]));
    if begin < end {
      PositionsIncreasing(ids, m.maskId);
      assert end in f.maskIds;
      var last := f.maskIds[|f.maskIds| - 1];
      var a :| 0 <= a < |f.maskIds| && f.maskIds[a] == end;
      assert last in f.maskIds;
      assert end <= last <= end;
    } else {
      forall p | 0 <= p < |ids| ensures ids[p] != m.maskId {
        assert p !in f.maskIds;
      }
      NoPositions(ids, m.maskId);
    }
  }

  // ---------------------------------------------------------------------
  // BertCorrector.correct
  // ---------------------------------------------------------------------

  /** The sort key of the spans: `itemgetter(2)`, the end index, ascending. */
  function ByEnd(): Span -> int {
    (s: Span) => s.end as int
  }

  /**
   * What the loop makes of span `s` when the sentence reads `current`: the
   * custom correction of a confusion span (`KeyError` when it has none), the
   * model's replacement of a Chinese character span over a sentence whose
   * characters are all in the vocabulary, and the item itself otherwise (a
   * skipped span, like a word span, changes nothing).
   */
  function SpanCorrection(m: BertModel, current: Str, s: Span): (r: Result<Str>)
    ensures r.Err? && r.error == KeyError <==>
      s.kind == Corrector.ConfusionError && s.item !in m.customConfusion
    ensures r.Err? && r.error == IndexError <==>
      s.kind == Corrector.CharError && m.isChineseString(s.item) && InVocab(m, current)
      && MaskOverruns(current, s.begin, s.end)
    ensures s.kind == Corrector.WordError ==> r == Ok(s.item)
  {
    match s.kind
    case ConfusionError =>
      if s.item in m.customConfusion then Ok(m.customConfusion[s.item]) else Err(KeyError)
    case CharError =>
      if m.isChineseString(s.item) && InVocab(m, current) then Infer(m, current, s.begin, s.end)
      else Ok(s.item)
    case WordError => Ok(s.item)
  }

  /** The body of the loop up to the comparison with the item. */
  method CorrectSpan(m: BertModel, current: Str, span: Span) returns (r: Result<Str>)
    ensures r == SpanCorrection(m, current, span)
  {
    match span.kind {
      case ConfusionError =>
        if span.item !in m.customConfusion {
          return Err(KeyError);
        }
        r := Ok(m.customConfusion[span.item]);
      case CharError =>
        if !m.isChineseString(span.item) {
          return Ok(span.item);
        }
        var inVocab := CheckVocabHasAllToken(m, current);
        if !inVocab {
          return Ok(span.item);
        }
        r := BertLmInfer(m, current, span.begin, span.end);
      case WordError =>
        r := Ok(span.item);
    }
  }

  /** Span `s`, met when the sentence read `current`, yields edit `e`: its correction differs from its item. */
  predicate Yields(m: BertModel, current: Str, s: Span, e: Edit) {
    e == Corrector.Edit(s.item, e.right, s.begin, s.end) && e.right != s.item
    && SpanCorrection(m, current, s) == Ok(e.right)
  }

  /** The edits' end indices never decrease. */
  ghost predicate EndsAscending(log: seq<Edit>) {
    forall a, b :: 0 <= a < b < |log| ==> log[a].end <= log[b].end
  }

  ghost predicate EndsAtMost(log: seq<Edit>, bound: int) {
    forall a :: 0 <= a < |log| ==> log[a].end <= bound
  }

  /** Every edit is yielded by one of the first `i` spans, over the sentence as it stood before it. */
  ghost predicate Justified(m: BertModel, sentence: Str, errors: seq<Span>, i: nat, log: seq<Edit>)
    requires i <= |errors|
  {
    forall a :: 0 <= a < |log| ==> JustifiedAt(m, sentence, errors, i, log, a)
  }

  /** Edit `a` of the log is yielded by one of the first `i` spans. */
  ghost predicate JustifiedAt(m: BertModel, sentence: Str, errors: seq<Span>, i: nat, log: seq<Edit>, a: nat)
    requires i <= |errors| && a < |log|
  {
    exists k :: 0 <= k < i && Yields(m, Corrector.Replay(sentence, log[..a]), errors[k], log[a])
  }

  /** Edit `a` of the log is yielded by a span of `spans`, over the sentence as it stood before it. */
  ghost predicate YieldedBy(m: BertModel, sentence: Str, spans: seq<Span>, log: seq<Edit>, a: nat)
    requires a < |log|
  {
    exists s :: s in spans && Yields(m, Corrector.Replay(sentence, log[..a]), s, log[a])
  }

  /** The custom correction is the edit of every confusion span among the first `i` that changes its item. */
  ghost predicate ConfusionsLogged(m: BertModel, errors: seq<Span>, i: nat, log: seq<Edit>)
    requires i <= |errors|
  {
    forall k :: 0 <= k < i && ChangingConfusion(m, errors[k]) ==> ConfusionEdit(m, errors[k]) in log
  }

  predicate ChangingConfusion(m: BertModel, s: Span) {
    s.kind == Corrector.ConfusionError && s.item in m.customConfusion && m.customConfusion[s.item] != s.item
  }

  function ConfusionEdit(m: BertModel, s: Span): Edit
    requires s.item in m.customConfusion
  {
    Corrector.Edit(s.item, m.customConfusion[s.item], s.begin, s.end)
  }

  /** What the loop has done after the first `i` spans. */
  ghost predicate Done(m: BertModel, sentence: Str, errors: seq<Span>, i: nat, log: seq<Edit>) {
    i <= |errors| && |log| <= i && EndsAscending(log)
    && (i < |errors| ==> EndsAtMost(log, errors[i].end))
    && Justified(m, sentence, errors, i, log) && ConfusionsLogged(m, errors, i, log)
  }

  lemma EndsAtMostLater(log: seq<Edit>, bound: int, bound': int)
    requires EndsAtMost(log, bound) && bound <= bound'
    ensures EndsAtMost(log, bound')
  {
  }

  lemma EndsAscendingSnoc(log: seq<Edit>, e: Edit)
    requires EndsAscending(log) && EndsAtMost(log, e.end)
    ensures EndsAscending(log + [e]) && EndsAtMost(log + [e], e.end)
  {
  }

  lemma JustifiedNext(m: BertModel, sentence: Str, errors: seq<Span>, i: nat, log: seq<Edit>)
    requires i < |errors| && Justified(m, sentence, errors, i, log)
    ensures Justified(m, sentence, errors, i + 1, log)
  {
    var next := i + 1;
    forall a | 0 <= a < |log|
      ensures JustifiedAt(m, sentence, errors, next, log, a)
    {
      assert JustifiedAt(m, sentence, errors, i, log, a);
      var k :| 0 <= k < i && Yields(m, Corrector.Replay(sentence, log[..a]), errors[k], log[a]);
      assert 0 <= k < i + 1;
    }
  }

  lemma JustifiedSnoc(m: BertModel, sentence: Str, errors: seq<Span>, i: nat, log: seq<Edit>, e: Edit)
    requires i < |errors| && Justified(m, sentence, errors, i, log)
    requires Yields(m, Corrector.Replay(sentence, log), errors[i], e)
    ensures Justified(m, sentence, errors, i + 1, log + [e])
  {
    var log' := log + [e];
    var next := i + 1;
    forall a | 0 <= a < |log'|
      ensures JustifiedAt(m, sentence, errors, next, log', a)
    {
      if a < |log| {
        assert log'[..a] == log[..a] && log'[a] == log[a];
        assert JustifiedAt(m, sentence, errors, i, log, a);
        var k :| 0 <= k < i && Yields(m, Corrector.Replay(sentence, log[..a]), errors[k], log[a]);
      } else {
        assert log'[..a] == log && log'[a] == e;
      }
    }
  }

  lemma ConfusionsLoggedNext(m: BertModel, errors: seq<Span>, i: nat, log: seq<Edit>, log': seq<Edit>)
    requires i < |errors| && ConfusionsLogged(m, errors, i, log)
    requires forall x :: x in log ==> x in log'
    requires ChangingConfusion(m, errors[i]) ==> ConfusionEdit(m, errors[i]) in log'
    ensures ConfusionsLogged(m, errors, i + 1, log')
  {
  }

  lemma DoneSkip(m: BertModel, sentence: Str, errors: seq<Span>, i: nat, log: seq<Edit>)
    requires Done(m, sentence, errors, i, log) && i < |errors| && SortedByKey(errors, ByEnd())
    requires !ChangingConfusion(m, errors[i])
    ensures Done(m, sentence, errors, i + 1, log)
  {
    if i + 1 < |errors| {
      assert ByEnd()(errors[i]) <= ByEnd()(errors[i + 1]);
      EndsAtMostLater(log, errors[i].end, errors[i + 1].end);
    }
    JustifiedNext(m, sentence, errors, i, log);
    ConfusionsLoggedNext(m, errors, i, log, log);
  }

  lemma DoneEdit(m: BertModel, sentence: Str, errors: seq<Span>, i: nat, log: seq<Edit>, e: Edit)
    requires Done(m, sentence, errors, i, log) && i < |errors| && SortedByKey(errors, ByEnd())
    requires Yields(m, Corrector.Replay(sentence, log), errors[i], e)
    ensures Done(m, sentence, errors, i + 1, log + [e])
  {
    assert ChangingConfusion(m, errors[i]) ==> e == ConfusionEdit(m, errors[i]);
    EndsAscendingSnoc(log, e);
    if i + 1 < |errors| {
      assert ByEnd()(errors[i]) <= ByEnd()(errors[i + 1]);
      EndsAtMostLater(log + [e], errors[i].end, errors[i + 1].end);
    }
    JustifiedSnoc(m, sentence, errors, i, log, e);
    ConfusionsLoggedNext(m, errors, i, log, log + [e]);
  }

  /** Once every span is processed, the log is what `Correct` promises about its edits. */
  lemma DoneAll(m: BertModel, sentence: Str, maybeErrors: seq<Span>, errors: seq<Span>,
                applied: seq<Edit>, detail: seq<Edit>)
    requires multiset(maybeErrors) == multiset(errors) && multiset(applied) == multiset(detail)
    requires Done(m, sentence, errors, |errors|, applied)
    ensures |applied| <= |maybeErrors|
    ensures forall a, b :: 0 <= a < b < |applied| ==> applied[a].end <= applied[b].end
    ensures forall a :: 0 <= a < |applied| ==> YieldedBy(m, sentence, maybeErrors, applied, a)
    ensures forall s :: s in maybeErrors && ChangingConfusion(m, s) ==> ConfusionEdit(m, s) in detail
  {
    assert |errors| == |maybeErrors| by {
      assert |multiset(errors)| == |multiset(maybeErrors)|;
    }
    SameElements(maybeErrors, errors);
    SameElements(applied, detail);
    forall a | 0 <= a < |applied|
      ensures YieldedBy(m, sentence, maybeErrors, applied, a)
    {
      assert JustifiedAt(m, sentence, errors, |errors|, applied, a);
      var k :| 0 <= k < |errors| && Yields(m, Corrector.Replay(sentence, applied[..a]), errors[k], applied[a]);
      assert errors[k] in maybeErrors;
      assert errors[k] in maybeErrors && Yields(m, Corrector.Replay(sentence, applied[..a]), errors[k], applied[a]);
    }
    forall s | s in maybeErrors && ChangingConfusion(m, s)
      ensures ConfusionEdit(m, s) in detail
    {
      var k :| 0 <= k < |errors| && errors[k] == s;
    }
  }

  /**
   * The outcome of span `s` met when the sentence reads `current`: the text
   * spliced in, `None` where the correction equals the item, or the error
   * that ends the loop.
   */
  function SpanOutcome(m: BertModel, current: Str, s: Span): Result<Option<Str>> {
    match SpanCorrection(m, current, s)
    case Err(e) => Err(e)
    case Ok(x) => Ok(Corrector.ChangeOf(s, Some(x)))
  }

  /** Each of the first `|outcomes|` spans had the outcome it gets in the sentence it met. */
  ghost predicate Traced(m: BertModel, sentence: Str, errors: seq<Span>, outcomes: seq<Option<Str>>) {
    && |outcomes| <= |errors|
    && forall k :: 0 <= k < |outcomes| ==>
         SpanOutcome(m, Corrector.Seen(sentence, errors, outcomes, k), errors[k]) == Ok(outcomes[k])
  }

  /** Taking the outcome of the next span in the sentence the log has built extends the trace. */
  lemma TraceStep(m: BertModel, sentence: Str, errors: seq<Span>, log: seq<Edit>, outcomes: seq<Option<Str>>,
                  o: Option<Str>)
    requires |outcomes| < |errors| && log == Corrector.Log(errors, outcomes)
    requires Traced(m, sentence, errors, outcomes)
    requires SpanOutcome(m, Corrector.Replay(sentence, log), errors[|outcomes|]) == Ok(o)
    ensures Traced(m, sentence, errors, outcomes + [o])
    ensures Corrector.Log(errors, outcomes + [o]) ==
      log + (if o.Some? then [Corrector.EditOf(errors[|outcomes|], o.value)] else [])
  {
    var next := outcomes + [o];
    Corrector.LogSnoc(errors, outcomes, o);
    TraceKeeps(m, sentence, errors, outcomes, o);
    var j := |outcomes|;
    assert Corrector.Seen(sentence, errors, next, j) == Corrector.Replay(sentence, log) by {
      Corrector.SeenSnoc(sentence, errors, outcomes, o, j);
      assert outcomes[..j] == outcomes;
    }
    assert SpanOutcome(m, Corrector.Seen(sentence, errors, next, j), errors[j]) == Ok(next[j]);
  }

  /** A later outcome keeps the outcomes already traced. */
  lemma TraceKeeps(m: BertModel, sentence: Str, errors: seq<Span>, outcomes: seq<Option<Str>>, o: Option<Str>)
    requires |outcomes| < |errors| && Traced(m, sentence, errors, outcomes)
    ensures forall k :: 0 <= k < |outcomes| ==>
      SpanOutcome(m, Corrector.Seen(sentence, errors, outcomes + [o], k), errors[k]) == Ok((outcomes + [o])[k])
  {
    forall k | 0 <= k < |outcomes|
      ensures SpanOutcome(m, Corrector.Seen(sentence, errors, outcomes + [o], k), errors[k]) == Ok((outcomes + [o])[k])
    {
      Corrector.SeenSnoc(sentence, errors, outcomes, o, k);
    }
  }

  /** No span of a complete trace is a confusion span without a custom correction. */
  lemma TracedConfusions(m: BertModel, sentence: Str, errors: seq<Span>, outcomes: seq<Option<Str>>)
    requires Traced(m, sentence, errors, outcomes) && |outcomes| == |errors|
    ensures forall k :: 0 <= k < |errors| && errors[k].kind == Corrector.ConfusionError ==>
      errors[k].item in m.customConfusion
  {
    forall k | 0 <= k < |errors| && errors[k].kind == Corrector.ConfusionError
      ensures errors[k].item in m.customConfusion
    {
      assert SpanOutcome(m, Corrector.Seen(sentence, errors, outcomes, k), errors[k]).Ok?;
    }
  }

  /**
   * One turn of the loop of `correct`: span `i`, met when the sentence reads
   * `current`, raises its error, or its differing correction is spliced in
   * and logged. The result carries the new sentence and log.
   */
  method CorrectStep(m: BertModel, sentence: Str, errors: seq<Span>, i: nat, current: Str, detail: seq<Edit>,
                     ghost outcomes: seq<Option<Str>>)
    returns (r: Result<(Str, seq<Edit>)>, ghost outcomes': seq<Option<Str>>)
    requires i < |errors| && SortedByKey(errors, ByEnd())
    requires Done(m, sentence, errors, i, detail) && current == Corrector.Replay(sentence, detail)
    requires |outcomes| == i && detail == Corrector.Log(errors, outcomes) && Traced(m, sentence, errors, outcomes)
    ensures r.Err? ==> SpanCorrection(m, current, errors[i]) == Err(r.error) && outcomes' == outcomes
    ensures r.Ok? ==> Done(m, sentence, errors, i + 1, r.value.1) && r.value.0 == Corrector.Replay(sentence, r.value.1)
    ensures r.Ok? ==> (|outcomes'| == i + 1 && r.value.1 == Corrector.Log(errors, outcomes')
      && Traced(m, sentence, errors, outcomes'))
  {
    var span := errors[i];
    var beforeSent := Prefix(current, span.begin);
    var afterSent := Suffix(current, span.end);
    var corrected := CorrectSpan(m, current, span);
    if corrected.Err? {
      return Err(corrected.error), outcomes;
    }
    var correctedItem := corrected.value;
    TraceStep(m, sentence, errors, detail, outcomes, Corrector.ChangeOf(span, Some(correctedItem)));
    outcomes' := outcomes + [Corrector.ChangeOf(span, Some(correctedItem))];
    if correctedItem != span.item {
      var e := Corrector.Edit(span.item, correctedItem, span.begin, span.end);
      assert Yields(m, current, span, e);
      DoneEdit(m, sentence, errors, i, detail, e);
      Corrector.ReplaySnoc(sentence, detail, e);
      r := Ok((beforeSent + correctedItem + afterSent, detail + [e]));
    } else {
      DoneSkip(m, sentence, errors, i, detail);
      r := Ok((current, detail));
    }
  }

  /**
   * Corrects the detected spans in ascending order of their end index and
   * returns the sentence and the edits sorted by their begin index. Every
   * edit is yielded by a confusion or character span as the sentence stood
   * when the span was met; the corrected sentence is the original with the
   * edits spliced in, in order; every confusion span whose custom correction
   * differs from its item is among the edits. A confusion span missing from
   * the custom confusion set raises `KeyError`; a failing inference (a span
   * that overruns the sentence, which can happen once an earlier edit has
   * shortened it) raises `IndexError`.
   */
  method Correct(m: BertModel, sentence: Str, maybeErrors: seq<Span>)
    returns (r: Result<(Str, seq<Edit>)>, ghost applied: seq<Edit>,
             ghost order: seq<Span>, ghost outcomes: seq<Option<Str>>)
    ensures maybeErrors == [] ==> r == Ok((sentence, []))
    ensures r.Err? && r.error == KeyError ==>
      exists s :: s in maybeErrors && s.kind == Corrector.ConfusionError && s.item !in m.customConfusion
    ensures r.Err? && r.error == IndexError ==>
      exists s :: s in maybeErrors && s.kind == Corrector.CharError && s.begin < s.end
    ensures r.Ok? ==> r.value.0 == Corrector.Replay(sentence, applied)
    ensures r.Ok? ==> SortedByKey(r.value.1, Corrector.ByBegin()) && multiset(r.value.1) == multiset(applied)
    ensures r.Ok? ==> SameKeyClasses(r.value.1, applied, Corrector.ByBegin())
    ensures r.Ok? ==> |applied| <= |maybeErrors|
    ensures r.Ok? ==> forall a, b :: 0 <= a < b < |applied| ==> applied[a].end <= applied[b].end
    ensures r.Ok? ==> forall a :: 0 <= a < |applied| ==> YieldedBy(m, sentence, maybeErrors, applied, a)
    ensures r.Ok? ==> forall s :: s in maybeErrors && ChangingConfusion(m, s) ==> ConfusionEdit(m, s) in r.value.1
    ensures r.Ok? ==> forall s :: s in maybeErrors && s.kind == Corrector.ConfusionError ==> s.item in m.customConfusion
    ensures SortedByKey(order, ByEnd()) && multiset(order) == multiset(maybeErrors)
    ensures SameKeyClasses(order, maybeErrors, ByEnd())
    ensures Traced(m, sentence, order, outcomes)
    ensures r.Ok? ==> |outcomes| == |order| && applied == Corrector.Log(order, outcomes)
    ensures r.Err? ==> (|outcomes| < |order| &&
      SpanOutcome(m, Corrector.Seen(sentence, order, outcomes, |outcomes|), order[|outcomes|]) == Err(r.error))
  {
    var errors := SortByKey(maybeErrors, ByEnd());
    SameElements(maybeErrors, errors);
    order := errors;
    outcomes := [];
    var current := sentence;
    var detail: seq<Edit> := [];
    for i := 0 to |errors|
      invariant Done(m, sentence, errors, i, detail)
      invariant current == Corrector.Replay(sentence, detail)
      invariant |outcomes| == i && detail == Corrector.Log(errors, outcomes)
      invariant Traced(m, sentence, errors, outcomes)
    {
      var step;
      step, outcomes := CorrectStep(m, sentence, errors, i, current, detail, outcomes);
      if step.Err? {
        assert errors[i] in maybeErrors;
        assert outcomes[..|outcomes|] == outcomes;
        return Err(step.error), [], order, outcomes;
      }
      current, detail := step.value.0, step.value.1;
    }
    applied := detail;
    var sortedDetail := SortByKey(detail, Corrector.ByBegin());
    DoneAll(m, sentence, maybeErrors, errors, applied, sortedDetail);
    TracedConfusions(m, sentence, errors, outcomes);
    r := Ok((current, sortedDetail));
  }
}
