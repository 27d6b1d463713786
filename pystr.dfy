/**
 * The Python `str` operations the correctors rely on: `strip`, `split`,
 * `startswith`/`endswith`, clamped slicing and `replace`.
 */
module PyStr {
  import opened Wrappers

  type Str = seq<char>

  /** Python's `str.isspace()` for a single character (the whitespace `strip()` removes). */
  predicate IsSpace(c: char) {
    c == ' ' || c == '\t' || c == '\n' || c == '\r' || c == '\U{0B}' || c == '\U{0C}'
    || ('\U{1C}' <= c <= '\U{1F}') || c == '\U{85}' || c == '\U{A0}' || c == '\U{1680}'
    || ('\U{2000}' <= c <= '\U{200A}') || c == '\U{2028}' || c == '\U{2029}'
    || c == '\U{202F}' || c == '\U{205F}' || c == '\U{3000}'
  }

  function StripLeft(s: Str): (r: Str)
    ensures |r| <= |s| && r == s[|s| - |r|..]
    ensures r == [] || !IsSpace(r[0])
    ensures forall i :: 0 <= i < |s| - |r| ==> IsSpace(s[i])
  {
    if |s| > 0 && IsSpace(s[0]) then StripLeft(s[1..]) else s
  }

  function StripRight(s: Str): (r: Str)
    ensures |r| <= |s| && r == s[..|r|]
    ensures r == [] || !IsSpace(r[|r| - 1])
    ensures forall i :: |r| <= i < |s| ==> IsSpace(s[i])
  {
    if |s| > 0 && IsSpace(s[|s| - 1]) then StripRight(s[..|s| - 1]) else s
  }

  /**
   * `s.strip()`: the infix of `s` left after removing whitespace at both ends;
   * it neither starts nor ends with whitespace.
   */
  function Strip(s: Str): (r: Str)
    ensures r == [] || (!IsSpace(r[0]) && !IsSpace(r[|r| - 1]))
    ensures exists i :: OccursAt(s, r, i) && (forall k :: 0 <= k < i ==> IsSpace(s[k]))
                                          && (forall k :: i + |r| <= k < |s| ==> IsSpace(s[k]))
  {
    var l := StripLeft(s);
    var r := StripRight(l);
    PrefixOfSuffix(s, l, r);
    r
  }

  /** A prefix `r` of a suffix `l` of `s` occurs in `s` where `l` starts. */
  lemma PrefixOfSuffix(s: Str, l: Str, r: Str)
    requires |l| <= |s| && l == s[|s| - |l|..] && |r| <= |l| && r == l[..|r|]
    ensures OccursAt(s, r, |s| - |l|)
    ensures forall k :: |s| - |l| <= k < |s| ==> s[k] == l[k - (|s| - |l|)]
  {
  }

  predicate StartsWith(s: Str, prefix: Str) {
    |prefix| <= |s| && s[..|prefix|] == prefix
  }

  predicate EndsWith(s: Str, suffix: Str) {
    |suffix| <= |s| && s[|s| - |suffix|..] == suffix
  }

  /** `s[lo:hi]` for non-negative bounds: Python clamps both bounds to the string. */
  function Slice(s: Str, lo: nat, hi: nat): (r: Str)
    ensures |r| == Max(0, Min(hi, |s|) - lo)
    ensures lo <= hi <= |s| ==> r == s[lo..hi]
  {
    var h := Min(hi, |s|);
    var l := Min(lo, h);
    s[l..h]
  }

  /** `s[:n]` */
  function Prefix(s: Str, n: nat): (r: Str)
    ensures r == s[..Min(n, |s|)]
  {
    Slice(s, 0, n)
  }

  /** `s[n:]` */
  function Suffix(s: Str, n: nat): (r: Str)
    ensures r == if n <= |s| then s[n..] else []
  {
    Slice(s, n, |s|)
  }

  /** `s[:-n]` for `n >= 1`: everything but the last `n` characters, empty when `s` is shorter. */
  function DropLast(s: Str, n: nat): Str {
    if n <= |s| then s[..|s| - n] else []
  }

  /** `set(list(s))`: the one-character strings of `s`. */
  function Chars(s: Str): (r: set<Str>)
    ensures forall x :: x in r <==> |x| == 1 && x[0] in s
  {
    var r := set i | 0 <= i < |s| :: [s[i]];
    assert forall x :: |x| == 1 && x[0] in s ==> x in r by {
      forall x | |x| == 1 && x[0] in s ensures x in r {
        var i :| 0 <= i < |s| && s[i] == x[0];
        assert x == [s[i]];
      }
    }
    r
  }

  /** `s.split(sep)` with an explicit one-character separator. */
  function Split(s: Str, sep: char): (r: seq<Str>)
    ensures |r| >= 1
    ensures forall i :: 0 <= i < |r| ==> sep !in r[i]
    decreases |s|
  {
    if |s| == 0 then [[]]
    else
      var rest := Split(s[1..], sep);
      if s[0] == sep then [[]] + rest
      else [[s[0]] + rest[0]] + rest[1..]
  }

  /** `sep.join(parts)` */
  function Join(parts: seq<Str>, sep: char): Str
    decreases |parts|
  {
    if |parts| == 0 then []
    else if |parts| == 1 then parts[0]
    else parts[0] + [sep] + Join(parts[1..], sep)
  }

  /** Joining the fields of a split gives the original string back. */
  lemma {:induction false} JoinSplit(s: Str, sep: char)
    ensures Join(Split(s, sep), sep) == s
    decreases |s|
  {
    if |s| > 0 {
      JoinSplit(s[1..], sep);
      var rest := Split(s[1..], sep);
      if s[0] == sep {
        assert Split(s, sep) == [[]] + rest;
        assert ([[]] + rest)[1..] == rest;
      } else {
        var parts := Split(s, sep);
        assert parts == [[s[0]] + rest[0]] + rest[1..];
        if |rest| == 1 {
          assert parts == [[s[0]] + rest[0]];
        } else {
          assert parts[1..] == rest[1..];
          assert Join(rest, sep) == rest[0] + [sep] + Join(rest[1..], sep);
        }
      }
    }
  }

  /** Splitting a join of separator-free fields gives the fields back. */
  lemma {:induction false} SplitJoin(parts: seq<Str>, sep: char)
    requires |parts| >= 1
    requires forall i :: 0 <= i < |parts| ==> sep !in parts[i]
    ensures Split(Join(parts, sep), sep) == parts
    decreases |parts|, |parts[0]|
  {
    if |parts[0]| > 0 {
      var p0 := parts[0];
      var parts' := [p0[1..]] + parts[1..];
      assert forall i :: 0 <= i < |parts'| ==> sep !in parts'[i] by {
        forall i | 0 <= i < |parts'| ensures sep !in parts'[i] {
          if i > 0 { assert parts'[i] == parts[i]; }
        }
      }
      SplitJoin(parts', sep);
      var j := Join(parts, sep);
      if |parts| == 1 {
        assert j == p0 && j[1..] == Join(parts', sep);
      } else {
        assert parts'[1..] == parts[1..];
        assert j[1..] == Join(parts', sep);
      }
      assert j[0] == p0[0] && j[0] != sep;
      assert [p0[0]] + p0[1..] == p0;
    } else if |parts| > 1 {
      SplitJoin(parts[1..], sep);
      var j := Join(parts, sep);
      assert j == [sep] + Join(parts[1..], sep);
      assert j[1..] == Join(parts[1..], sep);
    }
  }

  /** A string that does not start with the separator has a non-empty first field. */
  lemma {:induction false} SplitFirstFieldNonEmpty(s: Str, sep: char)
    requires |s| > 0 && s[0] != sep
    ensures |Split(s, sep)[0]| >= 1 && Split(s, sep)[0][0] == s[0]
  {
  }

  /** Python's `s.replace(old, new)`: every occurrence, scanned left to right. */
  function Replace(s: Str, pat: Str, repl: Str): Str {
    if pat == [] then InsertEverywhere(s, repl) else ReplaceNonEmpty(s, pat, repl)
  }

  /** `s.replace("", new)` puts `new` before every character and at the end. */
  function InsertEverywhere(s: Str, repl: Str): (r: Str)
    ensures |r| == |s| + (|s| + 1) * |repl|
    decreases |s|
  {
    if s == [] then repl else repl + [s[0]] + InsertEverywhere(s[1..], repl)
  }

  function ReplaceNonEmpty(s: Str, pat: Str, repl: Str): Str
    requires pat != []
    decreases |s|
  {
    if StartsWith(s, pat) then repl + ReplaceNonEmpty(s[|pat|..], pat, repl)
    else if s == [] then []
    else [s[0]] + ReplaceNonEmpty(s[1..], pat, repl)
  }

  /** `pat` occurs in `s` starting at position `i`. */
  predicate OccursAt(s: Str, pat: Str, i: int) {
    0 <= i <= |s| - |pat| && s[i..i + |pat|] == pat
  }

  /** `pat in s` */
  predicate Occurs(s: Str, pat: Str) {
    exists i | 0 <= i <= |s| - |pat| :: OccursAt(s, pat, i)
  }

  /** Replacing a non-empty string that does not occur leaves the text unchanged. */
  lemma {:induction false} ReplaceAbsent(s: Str, pat: Str, repl: Str)
    requires pat != [] && !Occurs(s, pat)
    ensures Replace(s, pat, repl) == s
    decreases |s|
  {
    assert !StartsWith(s, pat) by {
      if StartsWith(s, pat) { assert OccursAt(s, pat, 0); }
    }
    if s != [] {
      assert !Occurs(s[1..], pat) by {
        if Occurs(s[1..], pat) {
          var t := s[1..];
          var i :| 0 <= i <= |t| - |pat| && OccursAt(t, pat, i);
          assert t[i..i + |pat|] == s[i + 1..i + 1 + |pat|];
          assert OccursAt(s, pat, i + 1);
        }
      }
      ReplaceAbsent(s[1..], pat, repl);
    }
  }

  /** Replacing a string by itself leaves the text unchanged. */
  lemma {:induction false} ReplaceSame(s: Str, pat: Str)
    ensures Replace(s, pat, pat) == s
    decreases |s|
  {
    if pat == [] {
      InsertEmpty(s);
    } else if StartsWith(s, pat) {
      ReplaceSame(s[|pat|..], pat);
      assert s == pat + s[|pat|..];
    } else if s != [] {
      ReplaceSame(s[1..], pat);
      assert s == [s[0]] + s[1..];
    }
  }

  lemma {:induction false} InsertEmpty(s: Str)
    ensures InsertEverywhere(s, []) == s
    decreases |s|
  {
    if s != [] {
      InsertEmpty(s[1..]);
      assert s == [s[0]] + s[1..];
    }
  }
}
