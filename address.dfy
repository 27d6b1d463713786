/**
 * The address corrector (`pycorrector/address_corrector.py`): it derives the
 * place names a reference address makes plausible, slides a window of each
 * name's length over the sentence, keeps the windows whose pinyin and
 * character edit distance to a name is below a threshold, and replaces the
 * closest non-overlapping ones.
 *
 * Foreign calls are parameters: `pinyin(.., style=TONE3)` (first reading of
 * each character) and `Levenshtein.distance` form a `Phonetics` value; the
 * `cpca.transform` parse of the reference address and the `findall` result
 * of the address-splitting regular expression are given inputs.
 */
module Address {
  import opened Wrappers
  import opened PyStr
  import opened Sorting

  // ---------------------------------------------------------------------
  // reverse_dict_with_not_unique_value
  // ---------------------------------------------------------------------

  /** The keys of `dic` (in insertion order) whose value is `v`. */
  function KeysWithValue<K, V(==)>(dic: seq<(K, V)>, v: V): seq<K>
    decreases |dic|
  {
    if dic == [] then []
    else
      var rest := KeysWithValue(dic[..|dic| - 1], v);
      if dic[|dic| - 1].1 == v then rest + [dic[|dic| - 1].0] else rest
  }

  /** The values of `dic`. */
  function Values<K, V>(dic: seq<(K, V)>): set<V> {
    set j | 0 <= j < |dic| :: dic[j].1
  }

  /** A Python dict, as its items in insertion order: no key twice. */
  ghost predicate UniqueKeys<K, V>(dic: seq<(K, V)>) {
    forall i, j :: 0 <= i < j < |dic| ==> dic[i].0 != dic[j].0
  }

  /**
   * Inverts a dict whose values repeat: every value maps to the list of its
   * keys in insertion order.
   */
  method ReverseDict<K, V(==)>(dic: seq<(K, V)>) returns (ret: map<V, seq<K>>)
    ensures ret.Keys == Values(dic)
    ensures forall v :: v in ret ==> ret[v] == KeysWithValue(dic, v)
  {
    ret := map[];
    for i := 0 to |dic|
      invariant ret.Keys == Values(dic[..i])
      invariant forall v :: v in ret ==> ret[v] == KeysWithValue(dic[..i], v)
    {
      var key := dic[i].0;
      var val := dic[i].1;
      assert dic[..i + 1][..i] == dic[..i];
      assert Values(dic[..i + 1]) == Values(dic[..i]) + {val} by {
        assert forall j | 0 <= j < i :: dic[..i + 1][j] == dic[..i][j];
      }
      if val !in ret {
        KeysWithoutValue(dic[..i], val);
        ret := ret[val := [key]];
      } else {
        ret := ret[val := ret[val] + [key]];
      }
    }
    assert dic[..|dic|] == dic;
  }

  lemma {:induction false} KeysWithoutValue<K, V>(dic: seq<(K, V)>, v: V)
    requires v !in Values(dic)
    ensures KeysWithValue(dic, v) == []
    decreases |dic|
  {
    if dic != [] {
      var init := dic[..|dic| - 1];
      assert Values(init) <= Values(dic) by {
        forall j | 0 <= j < |init| ensures init[j].1 in Values(dic) {
          assert init[j] == dic[j];
        }
      }
      KeysWithoutValue(init, v);
      assert dic[|dic| - 1].1 in Values(dic);
    }
  }

  /** `k` is listed under `v` exactly when `(k, v)` is an item of the dict. */
  lemma {:induction false} KeysWithValueMembers<K, V>(dic: seq<(K, V)>, v: V, k: K)
    ensures k in KeysWithValue(dic, v) <==> (k, v) in dic
    decreases |dic|
  {
    if dic != [] {
      var init := dic[..|dic| - 1];
      KeysWithValueMembers(init, v, k);
      assert dic == init + [dic[|dic| - 1]];
    }
  }

  /** Every value of the dict has a non-empty list of keys. */
  lemma ReverseDictNonEmpty<K, V>(dic: seq<(K, V)>, v: V)
    requires v in Values(dic)
    ensures |KeysWithValue(dic, v)| >= 1
  {
    var j :| 0 <= j < |dic| && dic[j].1 == v;
    KeysWithValueMembers(dic, v, dic[j].0);
  }

  /**
   * Every key of a dict appears exactly once in the list of its own value,
   * and in no other list.
   */
  lemma {:induction false} ReverseDictKeyOnce<K, V>(dic: seq<(K, V)>, j: nat, v: V)
    requires UniqueKeys(dic) && j < |dic|
    ensures multiset(KeysWithValue(dic, v))[dic[j].0] == if v == dic[j].1 then 1 else 0
    decreases |dic|
  {
    var init := dic[..|dic| - 1];
    var last := dic[|dic| - 1];
    var key := dic[j].0;
    assert UniqueKeys(init);
    if j == |dic| - 1 {
      KeysWithValueMembers(init, v, key);
      assert key !in KeysWithValue(init, v);
    } else {
      ReverseDictKeyOnce(init, j, v);
      assert init[j] == dic[j];
      assert last.0 != key;
    }
  }

  // ---------------------------------------------------------------------
  // Bucketing the candidate names by length
  // ---------------------------------------------------------------------

  /** The items of length `n`, in order. */
  function WithLength(items: seq<Str>, n: nat): seq<Str>
    decreases |items|
  {
    if items == [] then []
    else
      var rest := WithLength(items[..|items| - 1], n);
      if |items[|items| - 1]| == n then rest + [items[|items| - 1]] else rest
  }

  /** The distinct lengths of `items`, in the order they first occur. */
  function FirstLengths(items: seq<Str>): seq<nat>
    decreases |items|
  {
    if items == [] then []
    else
      var init := FirstLengths(items[..|items| - 1]);
      var n := |items[|items| - 1]|;
      if n in init then init else init + [n]
  }

  function Lengths(items: seq<Str>): set<nat> {
    set j | 0 <= j < |items| :: |items[j]|
  }

  /**
   * `sizes` and `buckets` are `possible_right_map`'s keys, in insertion
   * order, and its lists for the items `items`.
   */
  ghost predicate Bucketed(items: seq<Str>, sizes: seq<nat>, buckets: map<nat, seq<Str>>) {
    && buckets.Keys == Lengths(items)
    && (forall n :: n in buckets ==> buckets[n] == WithLength(items, n))
    && (forall n :: n in sizes <==> n in buckets)
    && Distinct(sizes)
    && sizes == FirstLengths(items)
  }

  /**
   * `possible_right_map`: each item appended to the list under its length;
   * `sizes` are the dict's keys in insertion order.
   */
  method BucketByLength(items: seq<Str>) returns (sizes: seq<nat>, buckets: map<nat, seq<Str>>)
    ensures buckets.Keys == Lengths(items)
    ensures forall n :: n in buckets ==> buckets[n] == WithLength(items, n)
    ensures forall n :: n in sizes <==> n in buckets
    ensures Distinct(sizes)
    ensures sizes == FirstLengths(items)
  {
    sizes := [];
    buckets := map[];
    for i := 0 to |items|
      invariant Bucketed(items[..i], sizes, buckets)
    {
      var item := items[i];
      if |item| in buckets {
        BucketedGrow(items, i, sizes, buckets);
        buckets := buckets[|item| := buckets[|item|] + [item]];
      } else {
        BucketedNew(items, i, sizes, buckets);
        buckets := buckets[|item| := [item]];
        sizes := sizes + [|item|];
      }
    }
    assert items[..|items|] == items;
  }

  /** An item whose length already has a bucket is appended to that bucket. */
  lemma BucketedGrow(items: seq<Str>, i: nat, sizes: seq<nat>, buckets: map<nat, seq<Str>>)
    requires i < |items| && Bucketed(items[..i], sizes, buckets) && |items[i]| in buckets
    ensures Bucketed(items[..i + 1], sizes, buckets[|items[i]| := buckets[|items[i]|] + [items[i]]])
  {
    BucketSnoc(items, i);
  }

  /** An item of a new length opens a bucket of its own, and its length is listed last. */
  lemma BucketedNew(items: seq<Str>, i: nat, sizes: seq<nat>, buckets: map<nat, seq<Str>>)
    requires i < |items| && Bucketed(items[..i], sizes, buckets) && |items[i]| !in buckets
    ensures Bucketed(items[..i + 1], sizes + [|items[i]|], buckets[|items[i]| := [items[i]]])
  {
    BucketSnoc(items, i);
    WithoutLength(items[..i], |items[i]|);
    DistinctSnoc(sizes, |items[i]|);
  }

  /** A new element keeps a sequence without repetitions. */
  lemma DistinctSnoc(xs: seq<nat>, x: nat)
    requires Distinct(xs) && x !in xs
    ensures Distinct(xs + [x])
  {
  }

  /** One more item: its length joins the lengths, its bucket grows by it, and its length is listed if new. */
  lemma BucketSnoc(items: seq<Str>, i: nat)
    requires i < |items|
    ensures Lengths(items[..i + 1]) == Lengths(items[..i]) + {|items[i]|}
    ensures forall n ::
      WithLength(items[..i + 1], n) == WithLength(items[..i], n) + (if |items[i]| == n then [items[i]] else [])
    ensures FirstLengths(items[..i + 1])
      == FirstLengths(items[..i]) + (if |items[i]| in FirstLengths(items[..i]) then [] else [|items[i]|])
  {
    assert items[..i + 1][..i] == items[..i];
    assert forall j | 0 <= j < i :: items[..i + 1][j] == items[..i][j];
  }

  lemma {:induction false} WithoutLength(items: seq<Str>, n: nat)
    requires n !in Lengths(items)
    ensures WithLength(items, n) == []
    decreases |items|
  {
    if items != [] {
      var init := items[..|items| - 1];
      assert Lengths(init) <= Lengths(items) by {
        forall j | 0 <= j < |init| ensures |init[j]| in Lengths(items) {
          assert init[j] == items[j];
        }
      }
      WithoutLength(init, n);
      assert |items[|items| - 1]| in Lengths(items);
    }
  }

  /**
   * Every item sits in the bucket of its length, as often as it occurs in
   * the input, and in no other bucket; so every word of bucket `n` is `n`
   * characters long, which is the assertion the window scan makes.
   */
  lemma {:induction false} BucketMembers(items: seq<Str>, n: nat, x: Str)
    ensures multiset(WithLength(items, n))[x] == if |x| == n then multiset(items)[x] else 0
    decreases |items|
  {
    if items != [] {
      var init := items[..|items| - 1];
      BucketMembers(init, n, x);
      assert items == init + [items[|items| - 1]];
    }
  }

  // ---------------------------------------------------------------------
  // The window scan
  // ---------------------------------------------------------------------

  /**
   * `pinyin` gives the first TONE3 reading of each character of a string;
   * `distance` is the Levenshtein distance.
   */
  datatype Phonetics = Phonetics(pinyin: Str -> seq<Str>, distance: (Str, Str) -> nat)

  /** Sum of the reading distances over the first `n` zipped readings. */
  function ReadingDistance(ph: Phonetics, detect: seq<Str>, running: seq<Str>, n: nat): nat
    requires n <= |detect| && n <= |running|
  {
    if n == 0 then 0
    else ReadingDistance(ph, detect, running, n - 1) + ph.distance(detect[n - 1], running[n - 1])
  }

  /** The pinyin distance plus three times the character distance. */
  function Distance(ph: Phonetics, word: Str, running: Str): nat {
    var detect := ph.pinyin(word);
    var readings := ph.pinyin(running);
    ReadingDistance(ph, detect, readings, Min(|detect|, |readings|)) + 3 * ph.distance(word, running)
  }

  /** The loop over `zip(running_word_pinyins, pinyins_to_detect)`. */
  method PinyinDistance(ph: Phonetics, detect: seq<Str>, running: seq<Str>) returns (dist: nat)
    ensures dist == ReadingDistance(ph, detect, running, Min(|detect|, |running|))
  {
    dist := 0;
    for k := 0 to Min(|detect|, |running|)
      invariant dist == ReadingDistance(ph, detect, running, k)
    {
      var editDistance := ph.distance(detect[k], running[k]);
      dist := dist + editDistance;
    }
  }

  /** The window of `w`'s width at `i` is followed by a character and lies within `threshold` of `w`. */
  predicate Close(ph: Phonetics, s: Str, i: nat, w: Str, threshold: int) {
    i + |w| < |s| && Distance(ph, w, s[i..i + |w|]) < threshold
  }

  /**
   * An entry of `distances_result`: the distance, the sentence, the sentence
   * with the window replaced, the window `(begin, end)`, the window's text
   * and the name it resembles.
   */
  datatype Match = Match(dist: nat, original: Str, corrected: Str,
                         begin: nat, end: nat, running: Str, word: Str)

  /**
   * The entry for `word` over the window at `i`. The text after the window
   * is `sentence_to_correct[i + window_size]`, one character.
   */
  function MatchAt(ph: Phonetics, s: Str, i: nat, word: Str): Match
    requires i + |word| < |s|
  {
    var running := s[i..i + |word|];
    Match(Distance(ph, word, running), s, s[..i] + word + [s[i + |word|]], i, i + |word|, running, word)
  }

  /** The names of one length compared with the window at `i`. */
  method ScanWindow(ph: Phonetics, s: Str, i: nat, ws: nat, words: seq<Str>, threshold: int)
    returns (found: seq<Match>)
    requires i + ws < |s|
    requires forall w :: w in words ==> |w| == ws
    ensures found == CloseAt(ph, s, i, words, threshold)
    ensures forall m :: m in found ==>
      m.begin == i && m.word in words && m == MatchAt(ph, s, i, m.word) && m.dist < threshold
    ensures forall w :: w in words && Close(ph, s, i, w, threshold) ==>
      MatchAt(ph, s, i, w) in found
  {
    var runningWord := s[i..i + ws];
    var runningWordPinyins := ph.pinyin(runningWord);
    found := [];
    for j := 0 to |words|
      invariant found == CloseAt(ph, s, i, words[..j], threshold)
    {
      var wordToDetect := words[j];
      assert i + |wordToDetect| < |s| && runningWordPinyins == ph.pinyin(s[i..i + |wordToDetect|]) by {
        assert wordToDetect in words;
      }
      var entry := CompareWord(ph, s, i, wordToDetect, runningWordPinyins, threshold);
      CloseAtSnoc(ph, s, i, words, j, threshold);
      found := found + entry;
    }
    assert words[..|words|] == words;
    CloseAtSound(ph, s, i, words, threshold);
    CloseAtComplete(ph, s, i, words, threshold);
    forall w | w in words && Close(ph, s, i, w, threshold)
      ensures MatchAt(ph, s, i, w) in found
    {
      assert |w| == ws;
    }
  }

  /** The entries for the window at `i`: one for each name of `words` close to it, in the order of `words`. */
  function CloseAt(ph: Phonetics, s: Str, i: nat, words: seq<Str>, threshold: int): seq<Match>
    decreases |words|
  {
    if words == [] then []
    else
      var w := words[|words| - 1];
      CloseAt(ph, s, i, words[..|words| - 1], threshold) + Entry(ph, s, i, w, threshold)
  }

  /** The entry `w` contributes at window `i`: one when a character follows the window and `w` is close to it. */
  function Entry(ph: Phonetics, s: Str, i: nat, w: Str, threshold: int): seq<Match> {
    if Close(ph, s, i, w, threshold) then [MatchAt(ph, s, i, w)] else []
  }

  /** The entry for one name of the window's width: recorded when its distance is below the threshold. */
  method CompareWord(ph: Phonetics, s: Str, i: nat, wordToDetect: Str, runningWordPinyins: seq<Str>, threshold: int)
    returns (found: seq<Match>)
    requires i + |wordToDetect| < |s| && runningWordPinyins == ph.pinyin(s[i..i + |wordToDetect|])
    ensures found == Entry(ph, s, i, wordToDetect, threshold)
  {
    var ws := |wordToDetect|;
    var runningWord := s[i..i + ws];
    var sentenceBefore := s[..i];
    var sentenceAfter := s[i + ws];
    var pinyinsToDetect := ph.pinyin(wordToDetect);
    var dist := PinyinDistance(ph, pinyinsToDetect, runningWordPinyins);
    var dist2 := ph.distance(wordToDetect, runningWord) * 3;
    dist := dist + dist2;
    found := [];
    if dist < threshold {
      var entry := Match(dist, s, sentenceBefore + wordToDetect + [sentenceAfter],
                         i, i + ws, runningWord, wordToDetect);
      EntryIsMatchAt(ph, s, i, wordToDetect, dist);
      found := [entry];
    }
  }

  /** One more name of `words` adds its entry, if it is close, after the entries of the names before it. */
  lemma CloseAtSnoc(ph: Phonetics, s: Str, i: nat, words: seq<Str>, j: nat, threshold: int)
    requires j < |words|
    ensures CloseAt(ph, s, i, words[..j + 1], threshold) == CloseAt(ph, s, i, words[..j], threshold)
      + Entry(ph, s, i, words[j], threshold)
  {
    assert words[..j + 1][..j] == words[..j] && words[..j + 1][j] == words[j];
  }

  /** The tuple the source builds for a close name is the entry `MatchAt` describes. */
  lemma EntryIsMatchAt(ph: Phonetics, s: Str, i: nat, w: Str, dist: nat)
    requires i + |w| < |s| && dist == Distance(ph, w, s[i..i + |w|])
    ensures Match(dist, s, s[..i] + w + [s[i + |w|]], i, i + |w|, s[i..i + |w|], w) == MatchAt(ph, s, i, w)
  {
  }

  /** Each entry at window `i` is the entry of a name of `words` followed by a character and close to the window. */
  lemma {:induction false} CloseAtSound(ph: Phonetics, s: Str, i: nat, words: seq<Str>, threshold: int)
    ensures forall m :: m in CloseAt(ph, s, i, words, threshold) ==>
      m.begin == i && m.word in words && i + |m.word| < |s| && m == MatchAt(ph, s, i, m.word) && m.dist < threshold
    decreases |words|
  {
    if words != [] {
      var init, last := words[..|words| - 1], words[|words| - 1];
      CloseAtSound(ph, s, i, init, threshold);
      assert words == init + [last];
      EntrySound(ph, s, i, last, threshold);
    }
  }

  /** Every name of `words` followed by a character and close to window `i` has its entry there. */
  lemma {:induction false} CloseAtComplete(ph: Phonetics, s: Str, i: nat, words: seq<Str>, threshold: int)
    ensures forall w :: w in words && Close(ph, s, i, w, threshold) ==>
      MatchAt(ph, s, i, w) in CloseAt(ph, s, i, words, threshold)
    decreases |words|
  {
    if words != [] {
      var init, last := words[..|words| - 1], words[|words| - 1];
      CloseAtComplete(ph, s, i, init, threshold);
      assert words == init + [last];
      forall w | w in words && Close(ph, s, i, w, threshold)
        ensures MatchAt(ph, s, i, w) in CloseAt(ph, s, i, words, threshold)
      {
        if w !in init {
          assert w == last;
          assert MatchAt(ph, s, i, w) in Entry(ph, s, i, last, threshold);
        }
      }
    }
  }

  /** The entry of one name, if any, is its `MatchAt` entry, and lies under the threshold. */
  lemma EntrySound(ph: Phonetics, s: Str, i: nat, w: Str, threshold: int)
    ensures forall m :: m in Entry(ph, s, i, w, threshold) ==>
      m.begin == i && m.word == w && i + |w| < |s| && m == MatchAt(ph, s, i, w) && m.dist < threshold
  {
  }

  /** The entries for the windows at positions `0 .. n - 1`, window by window. */
  function CloseUpTo(ph: Phonetics, s: Str, n: nat, words: seq<Str>, threshold: int): seq<Match> {
    if n == 0 then [] else CloseUpTo(ph, s, n - 1, words, threshold) + CloseAt(ph, s, n - 1, words, threshold)
  }

  /** Each entry of the first `n` windows is a close window starting before `n` and followed by a character. */
  lemma {:induction false} CloseUpToSound(ph: Phonetics, s: Str, n: nat, words: seq<Str>, threshold: int)
    ensures forall m :: m in CloseUpTo(ph, s, n, words, threshold) ==>
      m.begin < n && m.word in words && m.begin + |m.word| < |s|
      && m == MatchAt(ph, s, m.begin, m.word) && m.dist < threshold
  {
    if n > 0 {
      var prev, last := CloseUpTo(ph, s, n - 1, words, threshold), CloseAt(ph, s, n - 1, words, threshold);
      assert CloseUpTo(ph, s, n, words, threshold) == prev + last;
      CloseUpToSound(ph, s, n - 1, words, threshold);
      CloseAtSound(ph, s, n - 1, words, threshold);
      forall m: Match | m in prev + last
        ensures m.begin < n && m.word in words && m.begin + |m.word| < |s|
          && m == MatchAt(ph, s, m.begin, m.word) && m.dist < threshold
      {
        if m !in prev {
          assert m in last;
        }
      }
    }
  }

  /** Every close window starting before `n` and followed by a character has its entry in the first `n` windows. */
  lemma {:induction false} CloseUpToComplete(ph: Phonetics, s: Str, n: nat, words: seq<Str>, threshold: int)
    ensures forall i: nat, w :: (i < n && w in words && Close(ph, s, i, w, threshold)) ==>
      MatchAt(ph, s, i, w) in CloseUpTo(ph, s, n, words, threshold)
  {
    if n > 0 {
      var prev, last := CloseUpTo(ph, s, n - 1, words, threshold), CloseAt(ph, s, n - 1, words, threshold);
      assert CloseUpTo(ph, s, n, words, threshold) == prev + last;
      CloseUpToComplete(ph, s, n - 1, words, threshold);
      CloseAtComplete(ph, s, n - 1, words, threshold);
      forall i: nat, w | i < n && w in words && Close(ph, s, i, w, threshold)
        ensures MatchAt(ph, s, i, w) in prev + last
      {
        if i < n - 1 {
          assert MatchAt(ph, s, i, w) in prev;
        } else {
          assert MatchAt(ph, s, i, w) in last;
        }
      }
    }
  }

  /** The number of positions `i` with `i + ws < len`: the windows the scan examines. */
  function WindowCount(len: nat, ws: nat): nat {
    if ws < len then len - ws else 0
  }

  /** `found` holds the entry of every window of width `ws` close enough to a name in `words`. */
  ghost predicate FindsAll(ph: Phonetics, s: Str, ws: nat, words: seq<Str>, threshold: int, found: seq<Match>) {
    forall i: nat, w :: w in words && |w| == ws && Close(ph, s, i, w, threshold) ==>
      MatchAt(ph, s, i, w) in found
  }

  /**
   * All windows for the names of one length. The loop stops as soon as
   * `i + window_size >= len(sentence)`, so every window examined is followed
   * by at least one character: a name at the very end of the sentence is
   * never found.
   */
  method ScanSize(ph: Phonetics, s: Str, ws: nat, words: seq<Str>, threshold: int)
    returns (found: seq<Match>)
    requires forall w :: w in words ==> |w| == ws
    ensures found == CloseUpTo(ph, s, WindowCount(|s|, ws), words, threshold)
    ensures forall m :: m in found ==>
      m.end < |s| && m.word in words && m.end == m.begin + ws
      && m == MatchAt(ph, s, m.begin, m.word) && m.dist < threshold
    ensures FindsAll(ph, s, ws, words, threshold, found)
  {
    found := [];
    for i := 0 to |s|
      invariant i <= WindowCount(|s|, ws) && found == CloseUpTo(ph, s, i, words, threshold)
    {
      if i + ws >= |s| {
        break;
      }
      var atWindow := ScanWindow(ph, s, i, ws, words, threshold);
      found := found + atWindow;
    }
    CloseUpToSound(ph, s, WindowCount(|s|, ws), words, threshold);
    CloseUpToComplete(ph, s, WindowCount(|s|, ws), words, threshold);
    forall i: nat, w | w in words && |w| == ws && Close(ph, s, i, w, threshold)
      ensures MatchAt(ph, s, i, w) in found
    {
      assert i < WindowCount(|s|, ws);
    }
  }

  /**
   * `distances_result` before sorting: for each width of `sizes` in turn,
   * every window of that width against the names of `names` that have it.
   */
  function ScanOrder(ph: Phonetics, s: Str, names: seq<Str>, sizes: seq<nat>, threshold: int): seq<Match>
    decreases |sizes|
  {
    if sizes == [] then []
    else
      var n := sizes[|sizes| - 1];
      ScanOrder(ph, s, names, sizes[..|sizes| - 1], threshold)
        + CloseUpTo(ph, s, WindowCount(|s|, n), WithLength(names, n), threshold)
  }

  /** Every word of bucket `n` is `n` characters long. */
  lemma WithLengthWidths(names: seq<Str>, n: nat)
    ensures forall w :: w in WithLength(names, n) ==> |w| == n
  {
    forall w | w in WithLength(names, n) ensures |w| == n {
      BucketMembers(names, n, w);
    }
  }

  /** Each entry of the scan over `sizes` is a close window, followed by a character, of a name of a listed width. */
  lemma {:induction false} ScanOrderSound(ph: Phonetics, s: Str, names: seq<Str>, sizes: seq<nat>, threshold: int)
    ensures forall m :: m in ScanOrder(ph, s, names, sizes, threshold) ==>
      |m.word| in sizes && m.word in WithLength(names, |m.word|) && m.begin + |m.word| < |s|
      && m == MatchAt(ph, s, m.begin, m.word) && m.dist < threshold
    decreases |sizes|
  {
    if sizes != [] {
      var init, n := sizes[..|sizes| - 1], sizes[|sizes| - 1];
      ScanOrderSound(ph, s, names, init, threshold);
      CloseUpToSound(ph, s, WindowCount(|s|, n), WithLength(names, n), threshold);
      assert sizes == init + [n];
      WithLengthWidths(names, n);
    }
  }

  /** Every close window, followed by a character, of a name of a listed width has its entry in the scan. */
  lemma {:induction false} ScanOrderComplete(ph: Phonetics, s: Str, names: seq<Str>, sizes: seq<nat>, threshold: int)
    ensures forall n, i: nat, w :: n in sizes && w in WithLength(names, n) && Close(ph, s, i, w, threshold) ==>
      MatchAt(ph, s, i, w) in ScanOrder(ph, s, names, sizes, threshold)
    decreases |sizes|
  {
    if sizes != [] {
      var init, n := sizes[..|sizes| - 1], sizes[|sizes| - 1];
      ScanOrderComplete(ph, s, names, init, threshold);
      CloseUpToComplete(ph, s, WindowCount(|s|, n), WithLength(names, n), threshold);
      assert sizes == init + [n];
      WithLengthWidths(names, n);
    }
  }

  /**
   * The scan over every bucket, in the dict's key order: the entries of
   * `ScanOrder`, whose members `ScanOrderSound` and `ScanOrderComplete`
   * describe.
   */
  method Scan(ph: Phonetics, s: Str, sizes: seq<nat>, buckets: map<nat, seq<Str>>, threshold: int,
              ghost names: seq<Str>)
    returns (distancesResult: seq<Match>)
    requires forall n :: n in sizes ==> n in buckets
    requires forall n :: n in buckets ==> forall w :: w in buckets[n] ==> |w| == n
    requires forall n :: n in buckets ==> buckets[n] == WithLength(names, n)
    ensures distancesResult == ScanOrder(ph, s, names, sizes, threshold)
  {
    distancesResult := [];
    for k := 0 to |sizes|
      invariant distancesResult == ScanOrder(ph, s, names, sizes[..k], threshold)
    {
      var windowSize := sizes[k];
      assert sizes[..k + 1][..k] == sizes[..k] && sizes[..k + 1][k] == windowSize;
      var wordsToDetect := buckets[windowSize];
      var found := ScanSize(ph, s, windowSize, wordsToDetect, threshold);
      distancesResult := distancesResult + found;
    }
    assert sizes[..|sizes|] == sizes;
  }

  // ---------------------------------------------------------------------
  // Sorting by distance and the greedy non-overlapping pass
  // ---------------------------------------------------------------------

  /** The sort key of `distances_result`: the distance. */
  function ByDistance(): Match -> int {
    (m: Match) => m.dist as int
  }

  /** `set(range(lo, hi))` */
  function Range(lo: int, hi: int): (r: set<int>)
    ensures forall k :: k in r <==> lo <= k < hi
    decreases hi - lo
  {
    if lo >= hi then {} else {lo} + Range(lo + 1, hi)
  }

  /** The positions a match covers. */
  function Window(m: Match): set<int> {
    Range(m.begin, m.end)
  }

  ghost predicate ValidPicks(dr: seq<Match>, picks: seq<nat>) {
    (forall a :: 0 <= a < |picks| ==> picks[a] < |dr|)
    && (forall a, b :: 0 <= a < b < |picks| ==> picks[a] < picks[b])
  }

  /** The positions covered by the picked matches that come before entry `j`. */
  ghost function CoveredBefore(dr: seq<Match>, picks: seq<nat>, j: int): set<int>
    requires ValidPicks(dr, picks)
    decreases |picks|
  {
    if picks == [] then {}
    else
      var p := picks[|picks| - 1];
      CoveredBefore(dr, picks[..|picks| - 1], j) + (if p < j then Window(dr[p]) else {})
  }

  /** The picked matches, in order. */
  ghost function Picked(dr: seq<Match>, picks: seq<nat>): seq<Match>
    requires ValidPicks(dr, picks)
  {
    seq(|picks|, a requires 0 <= a < |picks| => dr[picks[a]])
  }

  /** Applying `str.replace(running, word)` for each chosen match, in order. */
  function ReplaceAll(s: Str, chosen: seq<Match>): Str
    decreases |chosen|
  {
    if chosen == [] then s
    else
      var m := chosen[|chosen| - 1];
      Replace(ReplaceAll(s, chosen[..|chosen| - 1]), m.running, m.word)
  }

  /** Picking entry `j` next applies its replacement to the sentence so far. */
  lemma ReplaceAllPick(s: Str, dr: seq<Match>, picks: seq<nat>, j: nat)
    requires j < |dr| && ValidPicks(dr, picks) && ValidPicks(dr, picks + [j])
    ensures ReplaceAll(s, Picked(dr, picks + [j]))
            == Replace(ReplaceAll(s, Picked(dr, picks)), dr[j].running, dr[j].word)
  {
    var chosen := Picked(dr, picks + [j]);
    assert chosen[..|picks|] == Picked(dr, picks);
    assert chosen[|picks|] == dr[j];
  }

  lemma {:induction false} CoveredBeforeAll(dr: seq<Match>, picks: seq<nat>, j: int, j': int)
    requires ValidPicks(dr, picks)
    requires forall a :: 0 <= a < |picks| ==> picks[a] < j
    requires j <= j'
    ensures CoveredBefore(dr, picks, j) == CoveredBefore(dr, picks, j')
    decreases |picks|
  {
    if picks != [] {
      CoveredBeforeAll(dr, picks[..|picks| - 1], j, j');
    }
  }

  /** A later pick does not change what is covered before an earlier entry. */
  lemma CoveredBeforeLaterPick(dr: seq<Match>, picks: seq<nat>, p: nat, j: int)
    requires ValidPicks(dr, picks) && ValidPicks(dr, picks + [p]) && j <= p
    ensures CoveredBefore(dr, picks + [p], j) == CoveredBefore(dr, picks, j)
  {
    assert (picks + [p])[..|picks|] == picks;
  }

  lemma {:induction false} WindowCovered(dr: seq<Match>, picks: seq<nat>, a: nat, j: int)
    requires ValidPicks(dr, picks) && a < |picks| && picks[a] < j
    ensures Window(dr[picks[a]]) <= CoveredBefore(dr, picks, j)
    decreases |picks|
  {
    if a < |picks| - 1 {
      WindowCovered(dr, picks[..|picks| - 1], a, j);
    }
  }

  /** A covered position lies in the window of an earlier pick. */
  lemma {:induction false} CoveredBy(dr: seq<Match>, picks: seq<nat>, j: int, k: int)
    requires ValidPicks(dr, picks) && k in CoveredBefore(dr, picks, j)
    ensures exists a :: 0 <= a < |picks| && picks[a] < j && k in Window(dr[picks[a]])
    decreases |picks|
  {
    var init := picks[..|picks| - 1];
    var p := picks[|picks| - 1];
    if k in CoveredBefore(dr, init, j) {
      CoveredBy(dr, init, j, k);
      var a :| 0 <= a < |init| && init[a] < j && k in Window(dr[init[a]]);
      assert picks[a] == init[a];
    } else {
      assert p < j && k in Window(dr[p]);
    }
  }

  /** The applied windows are pairwise disjoint. */
  ghost predicate DisjointPicks(dr: seq<Match>, picks: seq<nat>)
    requires ValidPicks(dr, picks)
  {
    forall a, b :: 0 <= a < b < |picks| ==> Window(dr[picks[a]]) !! Window(dr[picks[b]])
  }

  /** Every entry before `j` that was not applied overlaps an earlier applied one. */
  ghost predicate SkippedOverlap(dr: seq<Match>, picks: seq<nat>, j: int)
    requires ValidPicks(dr, picks) && j <= |dr|
  {
    forall j' :: 0 <= j' < j && j' !in picks ==> Window(dr[j']) * CoveredBefore(dr, picks, j') != {}
  }

  /**
   * The greedy pass over `distances_result`: an entry is applied when its
   * window is disjoint from every window applied so far, and applying it
   * replaces every occurrence of the window's text in the current sentence.
   * `picks` are the positions of the applied entries.
   */
  method Greedy(s: Str, dr: seq<Match>) returns (sentence: Str, ghost picks: seq<nat>)
    ensures ValidPicks(dr, picks)
    ensures forall a, b :: 0 <= a < b < |picks| ==> Window(dr[picks[a]]) !! Window(dr[picks[b]])
    ensures forall j :: 0 <= j < |dr| && j !in picks ==> Window(dr[j]) * CoveredBefore(dr, picks, j) != {}
    ensures sentence == ReplaceAll(s, Picked(dr, picks))
  {
    var correctOverlap: set<int> := {};
    sentence := s;
    picks := [];
    for j := 0 to |dr|
      invariant GreedyInv(dr, picks, j, correctOverlap)
      invariant sentence == ReplaceAll(s, Picked(dr, picks))
    {
      var item := dr[j];
      if correctOverlap * Window(item) == {} {
        GreedyPick(dr, picks, j, correctOverlap);
        ReplaceAllPick(s, dr, picks, j);
        sentence := Replace(sentence, item.running, item.word);
        correctOverlap := correctOverlap + Window(item);
        picks := picks + [j];
      } else {
        GreedySkip(dr, picks, j, correctOverlap);
      }
    }
  }

  /** The state of the greedy pass before entry `j`. */
  ghost predicate GreedyInv(dr: seq<Match>, picks: seq<nat>, j: int, covered: set<int>) {
    0 <= j <= |dr| && ValidPicks(dr, picks)
    && (forall a :: 0 <= a < |picks| ==> picks[a] < j)
    && covered == CoveredBefore(dr, picks, j)
    && DisjointPicks(dr, picks)
    && SkippedOverlap(dr, picks, j)
  }

  lemma GreedyPick(dr: seq<Match>, picks: seq<nat>, j: nat, covered: set<int>)
    requires GreedyInv(dr, picks, j, covered) && j < |dr|
    requires covered * Window(dr[j]) == {}
    ensures ValidPicks(dr, picks + [j])
    ensures GreedyInv(dr, picks + [j], j + 1, covered + Window(dr[j]))
  {
    PickKeepsDisjoint(dr, picks, j);
    PickKeepsSkipped(dr, picks, j);
  }

  lemma GreedySkip(dr: seq<Match>, picks: seq<nat>, j: nat, covered: set<int>)
    requires GreedyInv(dr, picks, j, covered) && j < |dr|
    requires covered * Window(dr[j]) != {}
    ensures GreedyInv(dr, picks, j + 1, covered)
  {
    CoveredBeforeAll(dr, picks, j, j + 1);
    SkipKeepsSkipped(dr, picks, j);
  }

  lemma PickKeepsDisjoint(dr: seq<Match>, picks: seq<nat>, j: nat)
    requires ValidPicks(dr, picks) && j < |dr|
    requires forall a :: 0 <= a < |picks| ==> picks[a] < j
    requires DisjointPicks(dr, picks)
    requires CoveredBefore(dr, picks, j) * Window(dr[j]) == {}
    ensures ValidPicks(dr, picks + [j])
    ensures DisjointPicks(dr, picks + [j])
  {
    var picks' := picks + [j];
    forall a, b | 0 <= a < b < |picks'| ensures Window(dr[picks'[a]]) !! Window(dr[picks'[b]]) {
      if b == |picks| {
        WindowCovered(dr, picks, a, j);
      } else {
        assert picks'[a] == picks[a] && picks'[b] == picks[b];
      }
    }
  }

  lemma PickKeepsSkipped(dr: seq<Match>, picks: seq<nat>, j: nat)
    requires ValidPicks(dr, picks) && j < |dr|
    requires forall a :: 0 <= a < |picks| ==> picks[a] < j
    requires SkippedOverlap(dr, picks, j)
    ensures ValidPicks(dr, picks + [j])
    ensures CoveredBefore(dr, picks + [j], j + 1) == CoveredBefore(dr, picks, j) + Window(dr[j])
    ensures SkippedOverlap(dr, picks + [j], j + 1)
  {
    var picks' := picks + [j];
    assert picks'[..|picks|] == picks;
    CoveredBeforeAll(dr, picks, j, j + 1);
    forall j' | 0 <= j' < j + 1 && j' !in picks'
      ensures Window(dr[j']) * CoveredBefore(dr, picks', j') != {}
    {
      CoveredBeforeLaterPick(dr, picks, j, j');
    }
  }

  lemma SkipKeepsSkipped(dr: seq<Match>, picks: seq<nat>, j: nat)
    requires ValidPicks(dr, picks) && j < |dr|
    requires SkippedOverlap(dr, picks, j)
    requires Window(dr[j]) * CoveredBefore(dr, picks, j) != {}
    ensures SkippedOverlap(dr, picks, j + 1)
  {
  }

  /**
   * Over a list sorted by distance, an entry the greedy pass skips overlaps
   * an applied entry that is at least as close.
   */
  lemma GreedyPrefersCloser(dr: seq<Match>, picks: seq<nat>, j: nat)
    requires SortedByKey(dr, ByDistance()) && ValidPicks(dr, picks) && j < |dr|
    requires Window(dr[j]) * CoveredBefore(dr, picks, j) != {}
    ensures exists a :: (0 <= a < |picks| && picks[a] < j
      && Window(dr[picks[a]]) * Window(dr[j]) != {} && dr[picks[a]].dist <= dr[j].dist)
  {
    var k :| k in Window(dr[j]) * CoveredBefore(dr, picks, j);
    CoveredBy(dr, picks, j, k);
    var a :| 0 <= a < |picks| && picks[a] < j && k in Window(dr[picks[a]]);
    assert ByDistance()(dr[picks[a]]) <= ByDistance()(dr[j]);
  }

  /** Matches that rewrite a window into itself leave the sentence unchanged. */
  lemma {:induction false} ReplaceAllIdentity(s: Str, chosen: seq<Match>)
    requires forall m :: m in chosen ==> m.running == m.word
    ensures ReplaceAll(s, chosen) == s
    decreases |chosen|
  {
    if chosen != [] {
      var m := chosen[|chosen| - 1];
      ReplaceAllIdentity(s, chosen[..|chosen| - 1]);
      ReplaceSame(s, m.running);
    }
  }

  // ---------------------------------------------------------------------
  // _split_address
  // ---------------------------------------------------------------------

  /**
   * One `findall` tuple of the address pattern: a district/road/number
   * part, a building part, a room part, or one character of anything else.
   */
  datatype Fragment = Fragment(districtRoadNum: Str, building: Str, room: Str, other: Str)

  function Present(x: Str): seq<Str> {
    if x != [] then [x] else []
  }

  /** The non-empty structured parts, in match order. */
  function Structured(fs: seq<Fragment>): seq<Str>
    decreases |fs|
  {
    if fs == [] then []
    else
      var f := fs[|fs| - 1];
      Structured(fs[..|fs| - 1]) + Present(f.districtRoadNum) + Present(f.building) + Present(f.room)
  }

  /** The flushed runs and the run still being accumulated. */
  datatype Runs = Runs(flushed: seq<Str>, running: Str)

  function RunsOf(fs: seq<Fragment>): Runs
    decreases |fs|
  {
    if fs == [] then Runs([], [])
    else
      var r := RunsOf(fs[..|fs| - 1]);
      var other := fs[|fs| - 1].other;
      if other != [] then Runs(r.flushed, r.running + other)
      else if r.running != [] then Runs(r.flushed + [r.running], [])
      else r
  }

  /** `special_part`: every run of consecutive "other" fragments, concatenated. */
  function SpecialParts(fs: seq<Fragment>): seq<Str> {
    var r := RunsOf(fs);
    if r.running != [] then r.flushed + [r.running] else r.flushed
  }

  function Concat(xs: seq<Str>): Str
    decreases |xs|
  {
    if xs == [] then [] else Concat(xs[..|xs| - 1]) + xs[|xs| - 1]
  }

  /** All "other" fragments, concatenated. */
  function Others(fs: seq<Fragment>): Str
    decreases |fs|
  {
    if fs == [] then [] else Others(fs[..|fs| - 1]) + fs[|fs| - 1].other
  }

  /** The number of maximal runs of non-empty "other" fragments. */
  function RunCount(fs: seq<Fragment>): nat
    decreases |fs|
  {
    if fs == [] then 0
    else
      var init := fs[..|fs| - 1];
      var starts := fs[|fs| - 1].other != [] && (init == [] || init[|init| - 1].other == []);
      RunCount(init) + if starts then 1 else 0
  }

  method SplitAddress(matched: seq<Fragment>) returns (ret: seq<Str>, specialPart: seq<Str>)
    ensures ret == Structured(matched)
    ensures specialPart == SpecialParts(matched)
  {
    ret := [];
    var runningStr: Str := [];
    specialPart := [];
    for i := 0 to |matched|
      invariant ret == Structured(matched[..i])
      invariant RunsOf(matched[..i]) == Runs(specialPart, runningStr)
    {
      var f := matched[i];
      assert matched[..i + 1][..i] == matched[..i];
      if f.districtRoadNum != [] {
        ret := ret + [f.districtRoadNum];
      }
      if f.building != [] {
        ret := ret + [f.building];
      }
      if f.room != [] {
        ret := ret + [f.room];
      }
      if f.other != [] {
        runningStr := runningStr + f.other;
      } else if runningStr != [] {
        specialPart := specialPart + [runningStr];
        runningStr := [];
      }
    }
    assert matched[..|matched|] == matched;
    if runningStr != [] {
      specialPart := specialPart + [runningStr];
    }
  }

  lemma {:induction false} RunsOfInvariant(fs: seq<Fragment>)
    ensures forall x :: x in RunsOf(fs).flushed ==> x != []
    ensures Concat(RunsOf(fs).flushed) + RunsOf(fs).running == Others(fs)
    ensures RunsOf(fs).running != [] <==> (fs != [] && fs[|fs| - 1].other != [])
    ensures |RunsOf(fs).flushed| + (if RunsOf(fs).running != [] then 1 else 0) == RunCount(fs)
    decreases |fs|
  {
    if fs != [] {
      var init := fs[..|fs| - 1];
      RunsOfInvariant(init);
      var r := RunsOf(init);
      var other := fs[|fs| - 1].other;
      if other == [] && r.running != [] {
        assert (r.flushed + [r.running])[..|r.flushed|] == r.flushed;
      }
    }
  }

  /**
   * `special_part` holds no empty string, its concatenation is all the
   * "other" text, and it has one entry per maximal run.
   */
  lemma SpecialPartsRuns(fs: seq<Fragment>)
    ensures forall x :: x in SpecialParts(fs) ==> x != []
    ensures Concat(SpecialParts(fs)) == Others(fs)
    ensures |SpecialParts(fs)| == RunCount(fs)
  {
    RunsOfInvariant(fs);
    var r := RunsOf(fs);
    if r.running != [] {
      assert (r.flushed + [r.running])[..|r.flushed|] == r.flushed;
    }
  }

  /** Only non-empty structured parts are kept. */
  lemma {:induction false} StructuredNonEmpty(fs: seq<Fragment>)
    ensures forall x :: x in Structured(fs) ==> x != []
    decreases |fs|
  {
    if fs != [] {
      StructuredNonEmpty(fs[..|fs| - 1]);
    }
  }

  // ---------------------------------------------------------------------
  // _get_possible_parts
  // ---------------------------------------------------------------------

  /** The `cpca.transform` parse of the reference address. */
  datatype Parsed = Parsed(province: Str, city: Str, area: Str, addr: Str)

  /** What `_get_possible_parts` returns. */
  datatype Parts = Parts(possibleRight: seq<Str>, needToCheck: seq<Str>, split: seq<Str>)

  /** Python's `.` matches every character but a newline. */
  predicate NoNewline(s: Str) {
    '\n' !in s
  }

  /**
   * `re.fullmatch(".+?(路|((?<!小)区)|((?<!大)街(?!道)))", p)`: a road, a
   * district not preceded by 小, or a street not preceded by 大.
   */
  predicate RoadLike(p: Str) {
    |p| >= 2 && NoNewline(p[..|p| - 1])
    && (p[|p| - 1] == '路'
        || (p[|p| - 1] == '区' && p[|p| - 2] != '小')
        || (p[|p| - 1] == '街' && p[|p| - 2] != '大'))
  }

  /** `re.fullmatch(".+?(小区|大街|街道)", p)` */
  predicate EstateLike(p: Str) {
    |p| >= 3 && NoNewline(p[..|p| - 2])
    && (EndsWith(p, "小区") || EndsWith(p, "大街") || EndsWith(p, "街道"))
  }

  /** The aliases of the parsed province, or none when the province is empty. */
  function AliasesOf(c: Parsed, aliases: map<Str, seq<Str>>): seq<Str> {
    if c.province != [] && c.province in aliases then aliases[c.province] else []
  }

  /** The city, the area, and their forms without an administrative suffix. */
  ghost predicate SuffixAliases(c: Parsed, pr: seq<Str>) {
    (c.city != [] ==> c.city in pr)
    && (c.area != [] ==> c.area in pr)
    && (EndsWith(c.city, "市") ==> DropLast(c.city, 1) in pr)
    && (EndsWith(c.city, "特别行政区") ==> DropLast(c.city, 5) in pr)
    && (EndsWith(c.area, "市") || EndsWith(c.area, "区") ==> DropLast(c.area, 1) in pr)
  }

  /**
   * Each structured part of the address: a road or district adds itself and
   * the part without its last character; an estate or street adds itself
   * and the part without its last two; anything else is set aside to check.
   */
  ghost predicate PartRules(parts: seq<Str>, pr: seq<Str>, check: seq<Str>) {
    forall p :: p in parts ==>
      (RoadLike(p) ==> p in pr && DropLast(p, 1) in pr)
      && (!RoadLike(p) && EstateLike(p) ==> p in pr && DropLast(p, 2) in pr)
      && (!RoadLike(p) && !EstateLike(p) ==> p in check && DropLast(p, 1) in check)
  }

  ghost predicate PartAlias(parts: seq<Str>, x: Str) {
    exists p :: p in parts
      && ((RoadLike(p) && (x == p || x == DropLast(p, 1)))
          || (!RoadLike(p) && EstateLike(p) && (x == p || x == DropLast(p, 2))))
  }

  ghost predicate NeedsCheck(parts: seq<Str>, x: Str) {
    exists p :: p in parts && !RoadLike(p) && !EstateLike(p) && (x == p || x == DropLast(p, 1))
  }

  /** `x` is a province alias, the city, the area, or one of their suffix-less forms. */
  ghost predicate AdminDerived(c: Parsed, provinceAliases: seq<Str>, x: Str) {
    x in provinceAliases
    || (x == c.city && x != []) || (x == c.area && x != [])
    || (EndsWith(c.city, "市") && x == DropLast(c.city, 1))
    || (EndsWith(c.city, "特别行政区") && x == DropLast(c.city, 5))
    || ((EndsWith(c.area, "市") || EndsWith(c.area, "区")) && x == DropLast(c.area, 1))
  }

  /** `x` is one of the names the reference address makes plausible. */
  ghost predicate Derived(c: Parsed, provinceAliases: seq<Str>, fs: seq<Fragment>, x: Str) {
    AdminDerived(c, provinceAliases, x) || PartAlias(Structured(fs), x) || x in SpecialParts(fs)
  }

  lemma PrefixMembers(xs: seq<Str>, ys: seq<Str>)
    requires |xs| <= |ys| && ys[..|xs|] == xs
    ensures forall x :: x in xs ==> x in ys
  {
    forall x | x in xs ensures x in ys {
      var i :| 0 <= i < |xs| && xs[i] == x;
      assert ys[i] == x;
    }
  }

  /** Every name of `xs` is derived from the administrative fields. */
  ghost predicate AllAdminDerived(c: Parsed, provinceAliases: seq<Str>, xs: seq<Str>) {
    forall x :: x in xs ==> AdminDerived(c, provinceAliases, x)
  }

  lemma AdminDerivedSnoc(c: Parsed, provinceAliases: seq<Str>, xs: seq<Str>, y: Str)
    requires AllAdminDerived(c, provinceAliases, xs) && AdminDerived(c, provinceAliases, y)
    ensures AllAdminDerived(c, provinceAliases, xs + [y])
  {
  }

  /** The city and the area without their administrative suffixes, in the order they are appended. */
  function Suffixless(c: Parsed): (r: seq<Str>)
    ensures |r| <= 3
  {
    (if EndsWith(c.city, "市") then [DropLast(c.city, 1)] else [])
    + (if EndsWith(c.city, "特别行政区") then [DropLast(c.city, 5)] else [])
    + (if EndsWith(c.area, "市") || EndsWith(c.area, "区") then [DropLast(c.area, 1)] else [])
  }

  /** The province aliases, then the city and the area when they are present. */
  function AdminHead(c: Parsed, provinceAliases: seq<Str>): seq<Str> {
    provinceAliases + (if c.city != [] then [c.city] else []) + (if c.area != [] then [c.area] else [])
  }

  /** The administrative names in source order: the province aliases, the city, the area, the suffix-less forms. */
  function AdminList(c: Parsed, provinceAliases: seq<Str>): seq<Str> {
    AdminHead(c, provinceAliases) + Suffixless(c)
  }

  /** The names one structured part contributes: itself shortened, then itself. */
  function PartAliasOf(p: Str): seq<Str> {
    if RoadLike(p) then [DropLast(p, 1), p]
    else if EstateLike(p) then [DropLast(p, 2), p]
    else []
  }

  /** The names the structured parts contribute, part by part. */
  function PartAliasList(parts: seq<Str>): seq<Str>
    decreases |parts|
  {
    if parts == [] then [] else PartAliasList(parts[..|parts| - 1]) + PartAliasOf(parts[|parts| - 1])
  }

  /** What one structured part sets aside to check: itself, then itself minus its last character. */
  function CheckOf(p: Str): seq<Str> {
    if RoadLike(p) || EstateLike(p) then [] else [p, DropLast(p, 1)]
  }

  /** What the structured parts set aside to check, part by part. */
  function CheckList(parts: seq<Str>): seq<Str>
    decreases |parts|
  {
    if parts == [] then [] else CheckList(parts[..|parts| - 1]) + CheckOf(parts[|parts| - 1])
  }

  /** The province aliases, the city, the area and their suffix-less forms. */
  method AdminParts(condition: Parsed, aliases: map<Str, seq<Str>>) returns (pr: seq<Str>)
    requires condition.province != [] ==> condition.province in aliases
    ensures (var pa := AliasesOf(condition, aliases); |pa| <= |pr| && pr[..|pa|] == pa)
    ensures SuffixAliases(condition, pr)
    ensures AllAdminDerived(condition, AliasesOf(condition, aliases), pr)
    ensures pr == AdminList(condition, AliasesOf(condition, aliases))
  {
    var province, city, area := condition.province, condition.city, condition.area;
    ghost var pa := AliasesOf(condition, aliases);
    ghost var cityPart := if city != [] then [city] else [];
    ghost var areaPart := if area != [] then [area] else [];
    pr := [];
    if province != [] {
      pr := pr + aliases[province];
    }
    assert pr == pa;
    if city != [] {
      pr := pr + [city];
    }
    assert pr == pa + cityPart;
    if area != [] {
      pr := pr + [area];
    }
    assert pr == AdminHead(condition, pa);
    AdminHeadFacts(condition, pa);
    pr := AddSuffixless(condition, pa, pr);
  }

  /** The aliases lead `AdminHead`, the city and the area are in it, and every name of it is derived. */
  lemma AdminHeadFacts(c: Parsed, pa: seq<Str>)
    ensures var head := AdminHead(c, pa);
      && |pa| <= |head| && head[..|pa|] == pa
      && (c.city != [] ==> c.city in head)
      && (c.area != [] ==> c.area in head)
      && AllAdminDerived(c, pa, head)
  {
    var head := AdminHead(c, pa);
    assert head[..|pa|] == pa;
    forall x | x in head ensures AdminDerived(c, pa, x) {
      if x !in pa {
        assert x in head[|pa|..];
      }
    }
  }

  /** Appends the city without `市` or `特别行政区` and the area without `市` or `区`, in that order. */
  method AddSuffixless(condition: Parsed, ghost pa: seq<Str>, pr0: seq<Str>) returns (pr: seq<Str>)
    requires AllAdminDerived(condition, pa, pr0)
    ensures |pr0| <= |pr| && pr[..|pr0|] == pr0
    ensures forall x :: x in pr0 ==> x in pr
    ensures EndsWith(condition.city, "市") ==> DropLast(condition.city, 1) in pr
    ensures EndsWith(condition.city, "特别行政区") ==> DropLast(condition.city, 5) in pr
    ensures EndsWith(condition.area, "市") || EndsWith(condition.area, "区") ==> DropLast(condition.area, 1) in pr
    ensures AllAdminDerived(condition, pa, pr)
    ensures pr == pr0 + Suffixless(condition)
  {
    var city, area := condition.city, condition.area;
    ghost var cityShort := if EndsWith(city, "市") then [DropLast(city, 1)] else [];
    ghost var regionShort := if EndsWith(city, "特别行政区") then [DropLast(city, 5)] else [];
    pr := pr0;
    if EndsWith(city, "市") {
      pr := pr + [DropLast(city, 1)];
    }
    assert pr == pr0 + cityShort;
    if EndsWith(city, "特别行政区") {
      pr := pr + [DropLast(city, 5)];
    }
    assert pr == pr0 + cityShort + regionShort;
    if EndsWith(area, "市") || EndsWith(area, "区") {
      pr := pr + [DropLast(area, 1)];
    }
    assert pr == pr0 + Suffixless(condition);
    assert pr[..|pr0|] == pr0;
    SuffixlessFacts(condition, pa, pr0, pr);
  }

  /** Appending the suffix-less forms adds each form whose suffix is present, and nothing underived. */
  lemma SuffixlessFacts(condition: Parsed, pa: seq<Str>, pr0: seq<Str>, pr: seq<Str>)
    requires AllAdminDerived(condition, pa, pr0)
    requires pr == pr0 + Suffixless(condition)
    ensures EndsWith(condition.city, "市") ==> DropLast(condition.city, 1) in pr
    ensures EndsWith(condition.city, "特别行政区") ==> DropLast(condition.city, 5) in pr
    ensures EndsWith(condition.area, "市") || EndsWith(condition.area, "区") ==> DropLast(condition.area, 1) in pr
    ensures AllAdminDerived(condition, pa, pr)
  {
    forall x | x in pr ensures AdminDerived(condition, pa, x) {
      if x !in pr0 {
        assert x in Suffixless(condition);
      }
    }
  }

  /** The loop over the structured parts of the address. */
  method PartAliases(parts: seq<Str>, pr0: seq<Str>, check0: seq<Str>) returns (pr: seq<Str>, check: seq<Str>)
    ensures |pr0| <= |pr| && pr[..|pr0|] == pr0
    ensures |check0| <= |check| && check[..|check0|] == check0
    ensures PartRules(parts, pr, check)
    ensures forall x :: x in pr ==> x in pr0 || PartAlias(parts, x)
    ensures forall x :: x in check ==> x in check0 || NeedsCheck(parts, x)
    ensures pr == pr0 + PartAliasList(parts) && check == check0 + CheckList(parts)
  {
    pr, check := pr0, check0;
    for k := 0 to |parts|
      invariant pr == pr0 + PartAliasList(parts[..k]) && check == check0 + CheckList(parts[..k])
    {
      PartListsSnoc(parts, k, pr0, check0);
      pr, check := AddPart(parts[k], pr, check);
    }
    assert parts[..|parts|] == parts;
    PartListsFacts(parts, pr0, check0, pr, check);
  }

  /** One turn of the part loop: the regex branches on a single structured part. */
  method AddPart(part: Str, pr0: seq<Str>, check0: seq<Str>) returns (pr: seq<Str>, check: seq<Str>)
    ensures pr == pr0 + PartAliasOf(part) && check == check0 + CheckOf(part)
  {
    pr, check := pr0, check0;
    if RoadLike(part) {
      pr := pr + [DropLast(part, 1)];
      pr := pr + [part];
    } else if EstateLike(part) {
      pr := pr + [DropLast(part, 2)];
      pr := pr + [part];
    } else {
      check := check + [part];
      check := check + [DropLast(part, 1)];
    }
  }

  /** One more part extends both lists by what that part contributes. */
  lemma PartListsSnoc(parts: seq<Str>, k: nat, pr0: seq<Str>, check0: seq<Str>)
    requires k < |parts|
    ensures pr0 + PartAliasList(parts[..k + 1]) == pr0 + PartAliasList(parts[..k]) + PartAliasOf(parts[k])
    ensures check0 + CheckList(parts[..k + 1]) == check0 + CheckList(parts[..k]) + CheckOf(parts[k])
  {
    assert parts[..k + 1][..k] == parts[..k];
  }

  /** A name is in `PartAliasList` exactly when some part contributes it, and likewise for `CheckList`. */
  lemma {:induction false} PartListsMembers(parts: seq<Str>)
    ensures forall x :: x in PartAliasList(parts) <==> exists p :: p in parts && x in PartAliasOf(p)
    ensures forall x :: x in CheckList(parts) <==> exists p :: p in parts && x in CheckOf(p)
    decreases |parts|
  {
    if parts != [] {
      var init, last := parts[..|parts| - 1], parts[|parts| - 1];
      PartListsMembers(init);
      assert parts == init + [last];
    }
  }

  /** What the part loop promises, for the lists it builds. */
  lemma PartListsFacts(parts: seq<Str>, pr0: seq<Str>, check0: seq<Str>, pr: seq<Str>, check: seq<Str>)
    requires pr == pr0 + PartAliasList(parts) && check == check0 + CheckList(parts)
    ensures |pr0| <= |pr| && pr[..|pr0|] == pr0
    ensures |check0| <= |check| && check[..|check0|] == check0
    ensures PartRules(parts, pr, check)
    ensures forall x :: x in pr ==> x in pr0 || PartAlias(parts, x)
    ensures forall x :: x in check ==> x in check0 || NeedsCheck(parts, x)
  {
    assert pr[..|pr0|] == pr0 && check[..|check0|] == check0;
    PartListsRules(parts, pr, check);
    PartListsJustified(parts, pr0, check0, pr, check);
  }

  /** The lists the part loop builds satisfy the part rules. */
  lemma PartListsRules(parts: seq<Str>, pr: seq<Str>, check: seq<Str>)
    requires forall x :: x in PartAliasList(parts) ==> x in pr
    requires forall x :: x in CheckList(parts) ==> x in check
    ensures PartRules(parts, pr, check)
  {
    PartListsMembers(parts);
    forall p | p in parts
      ensures (RoadLike(p) ==> p in pr && DropLast(p, 1) in pr)
      ensures (!RoadLike(p) && EstateLike(p) ==> p in pr && DropLast(p, 2) in pr)
      ensures (!RoadLike(p) && !EstateLike(p) ==> p in check && DropLast(p, 1) in check)
    {
      assert forall x :: x in PartAliasOf(p) ==> x in PartAliasList(parts);
      assert forall x :: x in CheckOf(p) ==> x in CheckList(parts);
    }
  }

  /** The lists the part loop builds hold nothing a part does not justify. */
  lemma PartListsJustified(parts: seq<Str>, pr0: seq<Str>, check0: seq<Str>, pr: seq<Str>, check: seq<Str>)
    requires pr == pr0 + PartAliasList(parts) && check == check0 + CheckList(parts)
    ensures forall x :: x in pr ==> x in pr0 || PartAlias(parts, x)
    ensures forall x :: x in check ==> x in check0 || NeedsCheck(parts, x)
  {
    PartListsMembers(parts);
    forall x | x in pr && x !in pr0 ensures PartAlias(parts, x) {
      assert x in PartAliasList(parts);
    }
    forall x | x in check && x !in check0 ensures NeedsCheck(parts, x) {
      assert x in CheckList(parts);
    }
  }

  /**
   * The candidate names for a parsed reference address. `fragments` is the
   * `findall` result of the address pattern over `condition.addr`. The third
   * test of the source, `re.match` of a pattern whose last alternative is
   * empty, always succeeds, so every other structured part is set aside.
   */
  method GetPossibleParts(condition: Parsed, fragments: seq<Fragment>, aliases: map<Str, seq<Str>>)
    returns (r: Result<Parts>)
    ensures r.Err? <==> (condition.province != [] && condition.province !in aliases)
    ensures r.Err? ==> r.error == KeyError
    ensures r.Ok? ==> (r.value.split
      == [condition.province, condition.city, condition.area] + Structured(fragments) + SpecialParts(fragments))
    ensures r.Ok? ==> (var pa := AliasesOf(condition, aliases);
      |pa| <= |r.value.possibleRight| && r.value.possibleRight[..|pa|] == pa)
    ensures r.Ok? ==> SuffixAliases(condition, r.value.possibleRight)
    ensures r.Ok? ==> PartRules(Structured(fragments), r.value.possibleRight, r.value.needToCheck)
    ensures r.Ok? ==> (var sp := SpecialParts(fragments); var pr := r.value.possibleRight;
      |sp| <= |pr| && pr[|pr| - |sp|..] == sp)
    ensures r.Ok? ==> forall x :: x in r.value.possibleRight ==>
      Derived(condition, AliasesOf(condition, aliases), fragments, x)
    ensures r.Ok? ==> forall x :: x in r.value.needToCheck ==> NeedsCheck(Structured(fragments), x)
    ensures r.Ok? ==> (r.value.possibleRight == AdminList(condition, AliasesOf(condition, aliases))
      + PartAliasList(Structured(fragments)) + SpecialParts(fragments))
    ensures r.Ok? ==> r.value.needToCheck == CheckList(Structured(fragments))
  {
    if condition.province != [] && condition.province !in aliases {
      return Err(KeyError);
    }
    var needToCheckParts: seq<Str> := [];
    var split := [condition.province, condition.city, condition.area];
    var possibleRightParts := AdminParts(condition, aliases);
    ghost var admin := possibleRightParts;
    var conditionAddrList, specialParts := SplitAddress(fragments);
    split := split + conditionAddrList;
    split := split + specialParts;
    possibleRightParts, needToCheckParts := PartAliases(conditionAddrList, possibleRightParts, needToCheckParts);
    ghost var beforeSpecials := possibleRightParts;
    possibleRightParts := AppendAll(possibleRightParts, specialParts);
    PossibleRightFacts(condition, fragments, aliases, admin, beforeSpecials, needToCheckParts, possibleRightParts);
    r := Ok(Parts(possibleRightParts, needToCheckParts, split));
  }

  /** `for y in ys: xs.append(y)` */
  method AppendAll(xs: seq<Str>, ys: seq<Str>) returns (r: seq<Str>)
    ensures r == xs + ys
  {
    r := xs;
    for k := 0 to |ys|
      invariant r == xs + ys[..k]
    {
      r := r + [ys[k]];
    }
    assert ys[..|ys|] == ys;
  }

  /** Appending the special parts after the alias rules keeps what each step established. */
  lemma PossibleRightFacts(condition: Parsed, fragments: seq<Fragment>, aliases: map<Str, seq<Str>>,
                           admin: seq<Str>, middle: seq<Str>, check: seq<Str>, pr: seq<Str>)
    requires (var pa := AliasesOf(condition, aliases); |pa| <= |admin| && admin[..|pa|] == pa)
    requires SuffixAliases(condition, admin)
    requires forall x :: x in admin ==> AdminDerived(condition, AliasesOf(condition, aliases), x)
    requires |admin| <= |middle| && middle[..|admin|] == admin
    requires PartRules(Structured(fragments), middle, check)
    requires forall x :: x in middle ==> x in admin || PartAlias(Structured(fragments), x)
    requires pr == middle + SpecialParts(fragments)
    ensures var pa := AliasesOf(condition, aliases); |pa| <= |pr| && pr[..|pa|] == pa
    ensures SuffixAliases(condition, pr)
    ensures PartRules(Structured(fragments), pr, check)
    ensures var sp := SpecialParts(fragments); |sp| <= |pr| && pr[|pr| - |sp|..] == sp
    ensures forall x :: x in pr ==> Derived(condition, AliasesOf(condition, aliases), fragments, x)
  {
    var pa := AliasesOf(condition, aliases);
    var sp := SpecialParts(fragments);
    PrefixMembers(admin, middle);
    PrefixMembers(middle, pr);
    assert pr[..|middle|] == middle;
    assert pr[..|pa|] == admin[..|pa|];
    assert pr[|pr| - |sp|..] == sp;
    forall x | x in pr ensures Derived(condition, pa, fragments, x) {
      if x !in middle {
        var i :| 0 <= i < |pr| && pr[i] == x;
        assert x == sp[i - |middle|];
      }
    }
  }

  // ---------------------------------------------------------------------
  // AddressCorrector.correct
  // ---------------------------------------------------------------------

  /** The default `threshold` of `correct`. */
  const DefaultThreshold: int := 10

  /** `province_all_aliases[province]` for the inverted `province_map`. */
  function ProvinceAliases(provinceMap: seq<(Str, Str)>, province: Str): seq<Str> {
    if province != [] then KeysWithValue(provinceMap, province) else []
  }

  /** A recorded match: a window followed by one more character, close to a name. */
  ghost predicate Recorded(ph: Phonetics, s: Str, names: seq<Str>, threshold: int, m: Match) {
    m.word in names && m.begin + |m.word| < |s|
    && m == MatchAt(ph, s, m.begin, m.word) && m.dist < threshold
  }

  /** Every window followed by one more character and close to a name is recorded. */
  ghost predicate FindsEvery(ph: Phonetics, s: Str, names: seq<Str>, threshold: int, matches: seq<Match>) {
    forall i: nat, w :: (w in names && Close(ph, s, i, w, threshold)) ==>
      MatchAt(ph, s, i, w) in matches
  }

  /**
   * Corrects `sentenceToCorrect` against a reference address. `condition`
   * is the parse of the reference address, `fragments` the split of its
   * street part, `provinceMap` the alias-to-province table.
   *
   * The ghost outputs expose the pipeline: the candidate names, the matches
   * sorted by distance, and the positions of the matches applied.
   */
  method Correct(ph: Phonetics, sentenceToCorrect: Str, condition: Parsed, fragments: seq<Fragment>,
                 provinceMap: seq<(Str, Str)>, threshold: int)
    returns (r: Result<Str>, ghost possibleRight: seq<Str>, ghost needToCheck: seq<Str>,
             ghost matches: seq<Match>, ghost picks: seq<nat>)
    ensures r.Err? <==> (condition.province != [] && condition.province !in Values(provinceMap))
    ensures r.Err? ==> r.error == KeyError
    ensures r.Ok? ==> (var pa := ProvinceAliases(provinceMap, condition.province);
      |pa| <= |possibleRight| && possibleRight[..|pa|] == pa)
    ensures r.Ok? ==> SuffixAliases(condition, possibleRight)
    ensures r.Ok? ==> PartRules(Structured(fragments), possibleRight, needToCheck)
    ensures r.Ok? ==> (var sp := SpecialParts(fragments);
      |sp| <= |possibleRight| && possibleRight[|possibleRight| - |sp|..] == sp)
    ensures r.Ok? ==> forall x :: x in possibleRight ==>
      Derived(condition, ProvinceAliases(provinceMap, condition.province), fragments, x)
    ensures r.Ok? ==> (possibleRight == AdminList(condition, ProvinceAliases(provinceMap, condition.province))
      + PartAliasList(Structured(fragments)) + SpecialParts(fragments))
    ensures r.Ok? ==> needToCheck == CheckList(Structured(fragments))
    ensures r.Ok? ==> SortedByKey(matches, ByDistance())
    ensures r.Ok? ==> SameKeyClasses(matches,
      ScanOrder(ph, sentenceToCorrect, possibleRight, FirstLengths(possibleRight), threshold), ByDistance())
    ensures r.Ok? ==> forall m :: m in matches ==> Recorded(ph, sentenceToCorrect, possibleRight, threshold, m)
    ensures r.Ok? ==> FindsEvery(ph, sentenceToCorrect, possibleRight, threshold, matches)
    ensures r.Ok? ==> ValidPicks(matches, picks)
    ensures r.Ok? ==> forall a, b :: 0 <= a < b < |picks| ==> Window(matches[picks[a]]) !! Window(matches[picks[b]])
    ensures r.Ok? ==> forall j :: 0 <= j < |matches| && j !in picks ==>
      Window(matches[j]) * CoveredBefore(matches, picks, j) != {}
    ensures r.Ok? ==> r.value == ReplaceAll(sentenceToCorrect, Picked(matches, picks))
  {
    possibleRight, needToCheck, matches, picks := [], [], [], [];
    var aliases := ReverseDict(provinceMap);
    var parts := GetPossibleParts(condition, fragments, aliases);
    if parts.Err? {
      return Err(parts.error), possibleRight, needToCheck, matches, picks;
    }
    assert AliasesOf(condition, aliases) == ProvinceAliases(provinceMap, condition.province);
    var possibleRightList := parts.value.possibleRight;
    possibleRight, needToCheck := possibleRightList, parts.value.needToCheck;
    var sorted := FindMatches(ph, sentenceToCorrect, possibleRightList, threshold);
    matches := sorted;
    var sentence;
    sentence, picks := Greedy(sentenceToCorrect, sorted);
    r := Ok(sentence);
  }

  /**
   * `distances_result` sorted by distance: the scan of the names bucketed
   * by length, sorted stably, so that it holds exactly the close windows
   * and ties keep the scan's order.
   */
  method FindMatches(ph: Phonetics, s: Str, names: seq<Str>, threshold: int) returns (sorted: seq<Match>)
    ensures SortedByKey(sorted, ByDistance())
    ensures SameKeyClasses(sorted, ScanOrder(ph, s, names, FirstLengths(names), threshold), ByDistance())
    ensures forall m :: m in sorted ==> Recorded(ph, s, names, threshold, m)
    ensures FindsEvery(ph, s, names, threshold, sorted)
  {
    var sizes, buckets := BucketByLength(names);
    BucketWidths(names, buckets);
    var distancesResult := Scan(ph, s, sizes, buckets, threshold, names);
    sorted := SortByKey(distancesResult, ByDistance());
    ScanRecorded(ph, s, names, sizes, threshold, sorted);
    ScanFindsEvery(ph, s, names, sizes, threshold, sorted);
  }

  lemma BucketWidths(names: seq<Str>, buckets: map<nat, seq<Str>>)
    requires forall n :: n in buckets ==> buckets[n] == WithLength(names, n)
    ensures forall n :: n in buckets ==> forall w :: w in buckets[n] ==> |w| == n
  {
    forall n, w | n in buckets && w in buckets[n] ensures |w| == n {
      BucketMembers(names, n, w);
    }
  }

  /** Every match of a scan over all lengths of `names`, in any order, is a recorded close window. */
  lemma ScanRecorded(ph: Phonetics, s: Str, names: seq<Str>, sizes: seq<nat>, threshold: int, sorted: seq<Match>)
    requires multiset(ScanOrder(ph, s, names, sizes, threshold)) == multiset(sorted)
    ensures forall m :: m in sorted ==> Recorded(ph, s, names, threshold, m)
  {
    SameElements(ScanOrder(ph, s, names, sizes, threshold), sorted);
    forall m | m in sorted ensures Recorded(ph, s, names, threshold, m) {
      ScanOrderSound(ph, s, names, sizes, threshold);
      BucketMembers(names, |m.word|, m.word);
    }
  }

  /** A scan over every length of `names`, in any order, finds every close window of a name. */
  lemma ScanFindsEvery(ph: Phonetics, s: Str, names: seq<Str>, sizes: seq<nat>, threshold: int, sorted: seq<Match>)
    requires forall n :: n in Lengths(names) ==> n in sizes
    requires multiset(ScanOrder(ph, s, names, sizes, threshold)) == multiset(sorted)
    ensures FindsEvery(ph, s, names, threshold, sorted)
  {
    SameElements(ScanOrder(ph, s, names, sizes, threshold), sorted);
    forall i: nat, w | w in names && Close(ph, s, i, w, threshold)
      ensures MatchAt(ph, s, i, w) in sorted
    {
      ScanOrderComplete(ph, s, names, sizes, threshold);
      BucketMembers(names, |w|, w);
      var j :| 0 <= j < |names| && names[j] == w;
      assert |w| in Lengths(names);
    }
  }

  /**
   * With the default threshold, an applied name differs from the window it
   * replaces in at most three characters.
   */
  lemma DefaultThresholdBound(ph: Phonetics, s: Str, m: Match)
    requires m.end < |s| && m.begin + |m.word| < |s|
    requires m == MatchAt(ph, s, m.begin, m.word) && m.dist < DefaultThreshold
    ensures ph.distance(m.word, m.running) <= 3
  {
  }
}
