/**
 * The two static confusion tables and the per-character resolver:
 * same-pinyin (homophone) characters and same-stroke (look-alike) strings,
 * each parsed from the lines of a tab-separated text table.
 */
module Confusion {
  import opened Wrappers
  import opened PyStr

  /** A confusion table: a key string to the strings confusable with it. */
  type Table = map<Str, set<Str>>

  /** The fields of a stripped line, or None for a `#` comment line. */
  function Fields(line: Str, sep: char): Option<seq<Str>> {
    var l := Strip(line);
    if StartsWith(l, "#") then None else Some(Split(l, sep))
  }

  // ---------------------------------------------------------------- same pinyin

  /**
   * What one line of the same-pinyin table contributes: its key and the union
   * of the characters of its second and third fields, or None when it is dropped.
   */
  function PinyinEntry(line: Str, sep: char): Option<(Str, set<Str>)> {
    match Fields(line, sep)
    case None => None
    case Some(parts) =>
      if |parts| > 2 then
        var value := Chars(parts[1]) + Chars(parts[2]);
        if |parts[0]| > 1 || value == {} then None else Some((parts[0], value))
      else None
  }

  /** Entries read in order into a map; a later entry with the same key replaces the earlier one. */
  function Upsert<K, V>(entries: seq<Option<(K, V)>>): map<K, V>
    decreases |entries|
  {
    if entries == [] then map[]
    else
      var t := Upsert(entries[..|entries| - 1]);
      match entries[|entries| - 1]
      case None => t
      case Some(e) => t[e.0 := e.1]
  }

  function PinyinEntries(lines: seq<Str>, sep: char): seq<Option<(Str, set<Str>)>> {
    seq(|lines|, j requires 0 <= j < |lines| => PinyinEntry(lines[j], sep))
  }

  /** The same-pinyin table after reading `lines` in order. */
  function SamePinyinTable(lines: seq<Str>, sep: char): Table {
    Upsert(PinyinEntries(lines, sep))
  }

  /** `load_same_pinyin`, over the lines of the file (a missing file is no lines). */
  method LoadSamePinyin(lines: seq<Str>, sep: char) returns (result: Table)
    ensures result == SamePinyinTable(lines, sep)
  {
    result := map[];
    for i := 0 to |lines|
      invariant result == SamePinyinTable(lines[..i], sep)
    {
      assert PinyinEntries(lines[..i + 1], sep)[..i] == PinyinEntries(lines[..i], sep);
      var line := Strip(lines[i]);
      if StartsWith(line, "#") {
        continue;
      }
      var parts := Split(line, sep);
      if |parts| > 2 {
        var keyChar := parts[0];
        var value := Chars(parts[1]) + Chars(parts[2]);
        if |keyChar| > 1 || value == {} {
          continue;
        }
        result := result[keyChar := value];
      }
    }
    assert lines[..|lines|] == lines;
  }

  /**
   * A line is kept exactly when it is not a comment, has at least three fields,
   * a key of at most one character and at least one character in fields two
   * and three together; its value is then the set of those characters.
   */
  lemma PinyinEntrySpec(line: Str, sep: char)
    ensures var l := Strip(line); var parts := Split(l, sep);
      PinyinEntry(line, sep).Some? <==>
        !StartsWith(l, "#") && |parts| >= 3 && |parts[0]| <= 1 && |parts[1]| + |parts[2]| > 0
    ensures var parts := Split(Strip(line), sep);
      PinyinEntry(line, sep).Some? ==>
        && PinyinEntry(line, sep).value.0 == parts[0]
        && forall x :: x in PinyinEntry(line, sep).value.1 <==> |x| == 1 && (x[0] in parts[1] || x[0] in parts[2])
  {
    var l := Strip(line);
    if !StartsWith(l, "#") {
      var parts := Split(l, sep);
      if |parts| > 2 {
        var value := Chars(parts[1]) + Chars(parts[2]);
        if |parts[1]| > 0 {
          assert [parts[1][0]] in value;
        } else if |parts[2]| > 0 {
          assert [parts[2][0]] in value;
        }
      }
    }
  }

  /** With a whitespace separator (the default tab) every kept key is exactly one character. */
  lemma PinyinKeyIsOneChar(line: Str, sep: char)
    requires IsSpace(sep) && PinyinEntry(line, sep).Some?
    ensures |PinyinEntry(line, sep).value.0| == 1
  {
    var l := Strip(line);
    if l != [] {
      SplitFirstFieldNonEmpty(l, sep);
    }
  }

  /** A key is in the map exactly when some entry has that key. */
  lemma {:induction false} UpsertDomain<K, V>(entries: seq<Option<(K, V)>>, k: K)
    ensures k in Upsert(entries) <==> exists j :: 0 <= j < |entries| && entries[j].Some? && entries[j].value.0 == k
    decreases |entries|
  {
    if entries != [] {
      var init := entries[..|entries| - 1];
      UpsertDomain(init, k);
      if exists j :: 0 <= j < |init| && init[j].Some? && init[j].value.0 == k {
        var j :| 0 <= j < |init| && init[j].Some? && init[j].value.0 == k;
        assert entries[j] == init[j];
      }
      if exists j :: 0 <= j < |entries| && entries[j].Some? && entries[j].value.0 == k {
        var j :| 0 <= j < |entries| && entries[j].Some? && entries[j].value.0 == k;
        if j < |init| {
          assert init[j] == entries[j];
        }
      }
    }
  }

  /** The value of a key is the value of the last entry with that key. */
  lemma {:induction false} UpsertLastWins<K, V>(entries: seq<Option<(K, V)>>, j: nat)
    requires j < |entries| && entries[j].Some?
    requires forall j' :: j < j' < |entries| && entries[j'].Some? ==> entries[j'].value.0 != entries[j].value.0
    ensures entries[j].value.0 in Upsert(entries) && Upsert(entries)[entries[j].value.0] == entries[j].value.1
    decreases |entries|
  {
    var init := entries[..|entries| - 1];
    if j < |init| {
      assert init[j] == entries[j];
      forall j' | j < j' < |init| && init[j'].Some? ensures init[j'].value.0 != init[j].value.0 {
        assert init[j'] == entries[j'];
      }
      UpsertLastWins(init, j);
    }
  }

  /** `line` is kept by the same-pinyin loader with key `k`. */
  predicate KeptWithKey(line: Str, sep: char, k: Str) {
    PinyinEntry(line, sep).Some? && PinyinEntry(line, sep).value.0 == k
  }

  /**
   * A key is in the same-pinyin table exactly when some kept line has it, and
   * its value is the confusion set of the last such line.
   */
  lemma PinyinTableLookup(lines: seq<Str>, sep: char, j: nat)
    requires j < |lines| && PinyinEntry(lines[j], sep).Some?
    requires forall j' :: j < j' < |lines| ==> !KeptWithKey(lines[j'], sep, PinyinEntry(lines[j], sep).value.0)
    ensures PinyinEntry(lines[j], sep).value.0 in SamePinyinTable(lines, sep)
    ensures SamePinyinTable(lines, sep)[PinyinEntry(lines[j], sep).value.0] == PinyinEntry(lines[j], sep).value.1
  {
    var es := PinyinEntries(lines, sep);
    assert es[j] == PinyinEntry(lines[j], sep);
    forall j' | j < j' < |es| && es[j'].Some? ensures es[j'].value.0 != es[j].value.0 {
      assert es[j'] == PinyinEntry(lines[j'], sep);
    }
    UpsertLastWins(es, j);
  }

  /** A key is absent from the same-pinyin table when no kept line has it. */
  lemma PinyinTableAbsent(lines: seq<Str>, sep: char, k: Str)
    requires forall j :: 0 <= j < |lines| ==> !KeptWithKey(lines[j], sep, k)
    ensures k !in SamePinyinTable(lines, sep)
  {
    var es := PinyinEntries(lines, sep);
    UpsertDomain(es, k);
    forall j | 0 <= j < |es| ensures !(es[j].Some? && es[j].value.0 == k) {
      assert es[j] == PinyinEntry(lines[j], sep);
    }
  }

  // ---------------------------------------------------------------- same stroke

  /** The fields of a same-stroke line that is used (not a comment, at least two fields). */
  function StrokeFields(line: Str, sep: char): Option<seq<Str>> {
    match Fields(line, sep)
    case None => None
    case Some(parts) => if |parts| > 1 then Some(parts) else None
  }

  /** `set(parts[:i] + parts[i + 1:])`: the fields of a line other than the one at `i`. */
  function Others(parts: seq<Str>, i: nat): set<Str>
    requires i < |parts|
  {
    set k | 0 <= k < |parts| && k != i :: parts[k]
  }

  /** The table after registering the first `n` fields of one line, each mapped to the others. */
  function StrokeLine(t: Table, parts: seq<Str>, n: nat): Table
    requires n <= |parts|
    decreases n
  {
    if n == 0 then t else StrokeLine(t, parts, n - 1)[parts[n - 1] := Others(parts, n - 1)]
  }

  /** Field lists read in order into a table; every field of a later list overwrites. */
  function StrokeFold(ls: seq<Option<seq<Str>>>): Table
    decreases |ls|
  {
    if ls == [] then map[]
    else
      var t := StrokeFold(ls[..|ls| - 1]);
      match ls[|ls| - 1]
      case None => t
      case Some(parts) => StrokeLine(t, parts, |parts|)
  }

  function StrokeFieldLists(lines: seq<Str>, sep: char): seq<Option<seq<Str>>> {
    seq(|lines|, j requires 0 <= j < |lines| => StrokeFields(lines[j], sep))
  }

  /** The same-stroke table after reading `lines` in order. */
  function SameStrokeTable(lines: seq<Str>, sep: char): Table {
    StrokeFold(StrokeFieldLists(lines, sep))
  }

  /** Maps every field of one line to the set of the other fields, left to right. */
  method RegisterLine(t: Table, parts: seq<Str>) returns (result: Table)
    ensures result == StrokeLine(t, parts, |parts|)
  {
    result := t;
    for k := 0 to |parts|
      invariant result == StrokeLine(t, parts, k)
    {
      result := result[parts[k] := Others(parts, k)];
    }
  }

  /** `load_same_stroke`, over the lines of the file (a missing file is no lines). */
  method LoadSameStroke(lines: seq<Str>, sep: char) returns (result: Table)
    ensures result == SameStrokeTable(lines, sep)
  {
    result := map[];
    for i := 0 to |lines|
      invariant result == SameStrokeTable(lines[..i], sep)
    {
      StrokeTableSnoc(lines, i, sep);
      var line := Strip(lines[i]);
      if StartsWith(line, "#") {
        continue;
      }
      var parts := Split(line, sep);
      if |parts| > 1 {
        result := RegisterLine(result, parts);
      }
    }
    assert lines[..|lines|] == lines;
  }

  /** Reading one more line extends the table by that line's fields, if it has more than one. */
  lemma StrokeTableSnoc(lines: seq<Str>, i: nat, sep: char)
    requires i < |lines|
    ensures SameStrokeTable(lines[..i + 1], sep) ==
      match StrokeFields(lines[i], sep)
      case None => SameStrokeTable(lines[..i], sep)
      case Some(parts) => StrokeLine(SameStrokeTable(lines[..i], sep), parts, |parts|)
  {
    var ls := StrokeFieldLists(lines[..i + 1], sep);
    assert ls[..i] == StrokeFieldLists(lines[..i], sep);
    assert ls[i] == StrokeFields(lines[i], sep);
  }

  /** Within one line, a field ends up mapped to the fields other than its last occurrence. */
  lemma {:induction false} StrokeLineLookup(t: Table, parts: seq<Str>, n: nat, i: nat)
    requires i < n <= |parts|
    requires forall i' :: i < i' < n ==> parts[i'] != parts[i]
    ensures parts[i] in StrokeLine(t, parts, n) && StrokeLine(t, parts, n)[parts[i]] == Others(parts, i)
    decreases n
  {
    if i < n - 1 {
      StrokeLineLookup(t, parts, n - 1, i);
    }
  }

  /** Registering a line adds exactly its fields as keys and leaves every other key alone. */
  lemma {:induction false} StrokeLineFrame(t: Table, parts: seq<Str>, n: nat, c: Str)
    requires n <= |parts|
    ensures c in StrokeLine(t, parts, n) <==> c in t || c in parts[..n]
    ensures c !in parts[..n] && c in t ==> StrokeLine(t, parts, n)[c] == t[c]
    decreases n
  {
    if n > 0 {
      StrokeLineFrame(t, parts, n - 1, c);
      assert parts[..n] == parts[..n - 1] + [parts[n - 1]];
    }
  }

  /** A string is a key of the folded table exactly when some field list contains it. */
  lemma {:induction false} StrokeFoldDomain(ls: seq<Option<seq<Str>>>, c: Str)
    ensures c in StrokeFold(ls) <==> exists j :: 0 <= j < |ls| && ls[j].Some? && c in ls[j].value
    decreases |ls|
  {
    if ls != [] {
      var init := ls[..|ls| - 1];
      StrokeFoldDomain(init, c);
      var last := ls[|ls| - 1];
      if last.Some? {
        StrokeLineFrame(StrokeFold(init), last.value, |last.value|, c);
        assert last.value[..|last.value|] == last.value;
      }
      if exists j :: 0 <= j < |init| && init[j].Some? && c in init[j].value {
        var j :| 0 <= j < |init| && init[j].Some? && c in init[j].value;
        assert ls[j] == init[j];
      }
      if exists j :: 0 <= j < |ls| && ls[j].Some? && c in ls[j].value {
        var j :| 0 <= j < |ls| && ls[j].Some? && c in ls[j].value;
        if j < |init| {
          assert init[j] == ls[j];
        }
      }
    }
  }

  /** The entry of a field is taken from the last list holding it, at its last position there. */
  lemma {:induction false} StrokeFoldLastWins(ls: seq<Option<seq<Str>>>, j: nat, i: nat)
    requires j < |ls| && ls[j].Some? && i < |ls[j].value|
    requires forall i' :: i < i' < |ls[j].value| ==> ls[j].value[i'] != ls[j].value[i]
    requires forall j' :: j < j' < |ls| && ls[j'].Some? ==> ls[j].value[i] !in ls[j'].value
    ensures ls[j].value[i] in StrokeFold(ls) && StrokeFold(ls)[ls[j].value[i]] == Others(ls[j].value, i)
    decreases |ls|
  {
    var parts := ls[j].value;
    var init := ls[..|ls| - 1];
    if j == |ls| - 1 {
      StrokeLineLookup(StrokeFold(init), parts, |parts|, i);
    } else {
      assert init[j] == ls[j];
      forall j' | j < j' < |init| && init[j'].Some? ensures parts[i] !in init[j'].value {
        assert init[j'] == ls[j'];
      }
      StrokeFoldLastWins(init, j, i);
      var last := ls[|ls| - 1];
      if last.Some? {
        assert last.value[..|last.value|] == last.value;
        StrokeLineFrame(StrokeFold(init), last.value, |last.value|, parts[i]);
      }
    }
  }

  /** `line` is a used same-stroke line with `c` among its fields. */
  predicate ContainsField(line: Str, sep: char, c: Str) {
    StrokeFields(line, sep).Some? && c in StrokeFields(line, sep).value
  }

  /** A string is a key of the same-stroke table exactly when some used line lists it. */
  lemma StrokeTableDomain(lines: seq<Str>, sep: char, c: Str)
    ensures c in SameStrokeTable(lines, sep) <==> exists j :: 0 <= j < |lines| && ContainsField(lines[j], sep, c)
  {
    var ls := StrokeFieldLists(lines, sep);
    StrokeFoldDomain(ls, c);
    assert forall j :: 0 <= j < |lines| ==> ls[j] == StrokeFields(lines[j], sep);
  }

  /**
   * A later line overwrites instead of merging: the entry of a field is the
   * set of the other fields of the last used line listing it, taken at its
   * last position on that line.
   */
  lemma StrokeTableLastWins(lines: seq<Str>, sep: char, j: nat, i: nat)
    requires j < |lines| && StrokeFields(lines[j], sep).Some?
    requires i < |StrokeFields(lines[j], sep).value|
    requires var parts := StrokeFields(lines[j], sep).value;
      forall i' :: i < i' < |parts| ==> parts[i'] != parts[i]
    requires forall j' :: j < j' < |lines| ==> !ContainsField(lines[j'], sep, StrokeFields(lines[j], sep).value[i])
    ensures var parts := StrokeFields(lines[j], sep).value;
      parts[i] in SameStrokeTable(lines, sep) && SameStrokeTable(lines, sep)[parts[i]] == Others(parts, i)
  {
    var ls := StrokeFieldLists(lines, sep);
    assert forall j' :: 0 <= j' < |lines| ==> ls[j'] == StrokeFields(lines[j'], sep);
    StrokeFoldLastWins(ls, j, i);
  }

  // ---------------------------------------------------------------- resolver

  /** `table.get(c, set())`: the confusion set of `c`, empty for an unknown key. */
  function Lookup(t: Table, c: Str): (r: set<Str>)
    ensures c in t ==> r == t[c]
    ensures c !in t ==> r == {}
  {
    if c in t then t[c] else {}
  }

  /** `_confusion_char_set`: the union of the same-pinyin and same-stroke sets of `c`. */
  function ConfusionCharSet(samePinyin: Table, sameStroke: Table, c: Str): (r: set<Str>)
    ensures forall x :: x in r <==> (c in samePinyin && x in samePinyin[c]) || (c in sameStroke && x in sameStroke[c])
  {
    Lookup(samePinyin, c) + Lookup(sameStroke, c)
  }

  /** A string that no kept line of either table mentions as a key has no confusion candidates. */
  lemma UnlistedHasNoConfusion(pinyinLines: seq<Str>, strokeLines: seq<Str>, sep: char, c: Str)
    requires forall j :: 0 <= j < |pinyinLines| ==> !KeptWithKey(pinyinLines[j], sep, c)
    requires forall j :: 0 <= j < |strokeLines| ==> !ContainsField(strokeLines[j], sep, c)
    ensures ConfusionCharSet(SamePinyinTable(pinyinLines, sep), SameStrokeTable(strokeLines, sep), c) == {}
  {
    PinyinTableAbsent(pinyinLines, sep, c);
    StrokeTableDomain(strokeLines, sep, c);
  }

  /**
   * Look-alike confusion is symmetric within a line: two different fields
   * `a` and `b` of a used same-stroke line each resolve to a set holding the
   * other, provided no later line lists `a` again.
   */
  lemma GraphicSymmetry(samePinyin: Table, strokeLines: seq<Str>, sep: char, j: nat, a: Str, b: Str)
    requires j < |strokeLines| && StrokeFields(strokeLines[j], sep).Some?
    requires a in StrokeFields(strokeLines[j], sep).value && b in StrokeFields(strokeLines[j], sep).value
    requires a != b
    requires forall j' :: j < j' < |strokeLines| ==> !ContainsField(strokeLines[j'], sep, a)
    ensures b in ConfusionCharSet(samePinyin, SameStrokeTable(strokeLines, sep), a)
  {
    var parts := StrokeFields(strokeLines[j], sep).value;
    var i := LastIndex(parts, a);
    StrokeTableLastWins(strokeLines, sep, j, i);
    var k :| 0 <= k < |parts| && parts[k] == b;
    assert k != i;
  }

  /** The last position of `x` in `xs`. */
  function LastIndex(xs: seq<Str>, x: Str): (i: nat)
    requires x in xs
    ensures i < |xs| && xs[i] == x
    ensures forall i' :: i < i' < |xs| ==> xs[i'] != x
  {
    if xs[|xs| - 1] == x then |xs| - 1 else LastIndex(xs[..|xs| - 1], x)
  }
}
