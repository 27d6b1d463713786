/**
 * Python's `sorted(xs, key=...)` / `list.sort(key=...)` over an integer key,
 * as an insertion sort on sequences, with the facts about permutations and
 * repetition-free lists the correctors need. A descending sort
 * (`reverse=True`) is the ascending sort by the negated key.
 */
module Sorting {

  /** Non-decreasing by `key`. */
  predicate SortedByKey<T>(xs: seq<T>, key: T -> int) {
    forall i, j :: 0 <= i < j < |xs| ==> key(xs[i]) <= key(xs[j])
  }

  lemma SpliceMultiset<T>(xs: seq<T>, p: nat, x: T)
    requires p <= |xs|
    ensures multiset(xs[..p] + [x] + xs[p..]) == multiset(xs) + multiset{x}
  {
    assert xs == xs[..p] + xs[p..];
  }

  /** The elements of `xs` whose key is `v`, in their order in `xs`. */
  function KeyClass<T>(xs: seq<T>, key: T -> int, v: int): (r: seq<T>)
    ensures |r| <= |xs|
    decreases |xs|
  {
    if xs == [] then []
    else (if key(xs[0]) == v then [xs[0]] else []) + KeyClass(xs[1..], key, v)
  }

  /** Every key keeps the same elements in the same order: what makes a sort stable. */
  ghost predicate SameKeyClasses<T>(xs: seq<T>, ys: seq<T>, key: T -> int) {
    forall v :: KeyClass(xs, key, v) == KeyClass(ys, key, v)
  }

  lemma {:induction false} KeyClassAppend<T>(xs: seq<T>, ys: seq<T>, key: T -> int, v: int)
    ensures KeyClass(xs + ys, key, v) == KeyClass(xs, key, v) + KeyClass(ys, key, v)
    decreases |xs|
  {
    if xs != [] {
      var head := if key(xs[0]) == v then [xs[0]] else [];
      assert (xs + ys)[0] == xs[0] && (xs + ys)[1..] == xs[1..] + ys;
      calc {
        KeyClass(xs + ys, key, v);
        head + KeyClass(xs[1..] + ys, key, v);
        { KeyClassAppend(xs[1..], ys, key, v); }
        head + (KeyClass(xs[1..], key, v) + KeyClass(ys, key, v));
        (head + KeyClass(xs[1..], key, v)) + KeyClass(ys, key, v);
      }
    } else {
      assert xs + ys == ys;
    }
  }

  /** No element of `xs` has the key `v`. */
  lemma {:induction false} KeyClassNone<T>(xs: seq<T>, key: T -> int, v: int)
    requires forall k :: 0 <= k < |xs| ==> key(xs[k]) != v
    ensures KeyClass(xs, key, v) == []
    decreases |xs|
  {
    if xs != [] {
      KeyClassNone(xs[1..], key, v);
    }
  }

  /** `x` occurs in `xs` exactly when it occurs among the elements with its own key. */
  lemma {:induction false} KeyClassMember<T>(xs: seq<T>, key: T -> int, x: T)
    ensures x in xs <==> x in KeyClass(xs, key, key(x))
    decreases |xs|
  {
    if xs != [] {
      KeyClassMember(xs[1..], key, x);
      assert xs == [xs[0]] + xs[1..];
    }
  }

  /** In a list sorted by `key`, no element has a smaller key than the first. */
  lemma SortedHeadLeast<T>(xs: seq<T>, key: T -> int, x: T)
    requires SortedByKey(xs, key) && x in xs
    ensures key(xs[0]) <= key(x)
  {
    var j :| 0 <= j < |xs| && xs[j] == x;
    if j > 0 {
      assert key(xs[0]) <= key(xs[j]);
    }
  }

  /** Two sorted lists with the same key classes start with the same element. */
  lemma SortedSameHead<T>(xs: seq<T>, ys: seq<T>, key: T -> int)
    requires SortedByKey(xs, key) && SortedByKey(ys, key)
    requires SameKeyClasses(xs, ys, key)
    requires xs != [] && ys != []
    ensures xs[0] == ys[0]
  {
    var a, b := xs[0], ys[0];
    KeyClassMember(ys, key, b);
    KeyClassMember(xs, key, b);
    assert KeyClass(xs, key, key(b)) == KeyClass(ys, key, key(b));
    SortedHeadLeast(xs, key, b);
    KeyClassMember(xs, key, a);
    KeyClassMember(ys, key, a);
    assert KeyClass(xs, key, key(a)) == KeyClass(ys, key, key(a));
    SortedHeadLeast(ys, key, a);
    var v := key(a);
    assert key(b) == v;
    assert KeyClass(xs, key, v) == [a] + KeyClass(xs[1..], key, v);
    assert KeyClass(ys, key, v) == [b] + KeyClass(ys[1..], key, v);
    assert KeyClass(xs, key, v)[0] == KeyClass(ys, key, v)[0];
  }

  /** Dropping the same first element keeps the key classes equal. */
  lemma SameKeyClassesTail<T>(xs: seq<T>, ys: seq<T>, key: T -> int)
    requires SameKeyClasses(xs, ys, key)
    requires xs != [] && ys != [] && xs[0] == ys[0]
    ensures SameKeyClasses(xs[1..], ys[1..], key)
  {
    forall v ensures KeyClass(xs[1..], key, v) == KeyClass(ys[1..], key, v) {
      var head := if key(xs[0]) == v then [xs[0]] else [];
      assert KeyClass(xs, key, v) == head + KeyClass(xs[1..], key, v);
      assert KeyClass(ys, key, v) == head + KeyClass(ys[1..], key, v);
      assert KeyClass(xs[1..], key, v) == KeyClass(xs, key, v)[|head|..];
      assert KeyClass(ys[1..], key, v) == KeyClass(ys, key, v)[|head|..];
    }
  }

  /**
   * Two lists sorted by `key` whose elements of each key come in the same
   * order are equal: a stable sort has exactly one possible result.
   */
  lemma {:induction false} SortedUnique<T>(xs: seq<T>, ys: seq<T>, key: T -> int)
    requires SortedByKey(xs, key) && SortedByKey(ys, key)
    requires SameKeyClasses(xs, ys, key)
    ensures xs == ys
    decreases |xs|
  {
    if xs == [] && ys == [] {
    } else if xs == [] || ys == [] {
      var z := if xs != [] then xs[0] else ys[0];
      KeyClassMember(xs, key, z);
      KeyClassMember(ys, key, z);
      assert false;
    } else {
      SortedSameHead(xs, ys, key);
      SameKeyClassesTail(xs, ys, key);
      SortedUnique(xs[1..], ys[1..], key);
      assert xs == [xs[0]] + xs[1..] && ys == [ys[0]] + ys[1..];
    }
  }

  /** Inserts `x` after every element whose key is not greater than its own (keeps the sort stable). */
  method InsertByKey<T(==)>(xs: seq<T>, x: T, key: T -> int) returns (ys: seq<T>)
    requires SortedByKey(xs, key)
    ensures SortedByKey(ys, key)
    ensures multiset(ys) == multiset(xs) + multiset{x}
    ensures forall v :: KeyClass(ys, key, v) == KeyClass(xs + [x], key, v)
  {
    var p := |xs|;
    while p > 0 && key(xs[p - 1]) > key(x)
      invariant 0 <= p <= |xs|
      invariant forall k :: p <= k < |xs| ==> key(xs[k]) > key(x)
    {
      p := p - 1;
    }
    SpliceMultiset(xs, p, x);
    ys := xs[..p] + [x] + xs[p..];
    InsertKeyClasses(xs, p, x, key);
  }

  /** Inserting `x` before elements of greater key only keeps it last among those of its key. */
  lemma InsertKeyClasses<T>(xs: seq<T>, p: nat, x: T, key: T -> int)
    requires p <= |xs| && forall k :: p <= k < |xs| ==> key(xs[k]) > key(x)
    ensures forall v :: KeyClass(xs[..p] + [x] + xs[p..], key, v) == KeyClass(xs + [x], key, v)
  {
    forall v ensures KeyClass(xs[..p] + [x] + xs[p..], key, v) == KeyClass(xs + [x], key, v) {
      InsertKeyClass(xs, p, x, key, v);
    }
  }

  lemma InsertKeyClass<T>(xs: seq<T>, p: nat, x: T, key: T -> int, v: int)
    requires p <= |xs| && forall k :: p <= k < |xs| ==> key(xs[k]) > key(x)
    ensures KeyClass(xs[..p] + [x] + xs[p..], key, v) == KeyClass(xs + [x], key, v)
  {
    var lo, hi := xs[..p], xs[p..];
    assert lo + hi == xs;
    KeyClassAppend(lo + [x], hi, key, v);
    KeyClassAppend(lo, [x], key, v);
    KeyClassAppend(lo, hi, key, v);
    KeyClassAppend(xs, [x], key, v);
    if key(x) == v {
      KeyClassNone(hi, key, v);
    } else {
      assert KeyClass([x], key, v) == [];
    }
  }

  /** A permutation of `xs` that is non-decreasing by `key` and keeps elements of equal key in order. */
  method SortByKey<T(==)>(xs: seq<T>, key: T -> int) returns (ys: seq<T>)
    ensures SortedByKey(ys, key)
    ensures multiset(ys) == multiset(xs)
    ensures |ys| == |xs|
    ensures SameKeyClasses(ys, xs, key)
  {
    ys := [];
    var i := 0;
    while i < |xs|
      invariant 0 <= i <= |xs|
      invariant SortedByKey(ys, key)
      invariant multiset(ys) == multiset(xs[..i])
      invariant SameKeyClasses(ys, xs[..i], key)
    {
      ghost var prev := ys;
      ys := InsertByKey(ys, xs[i], key);
      assert xs[..i + 1] == xs[..i] + [xs[i]];
      forall v ensures KeyClass(ys, key, v) == KeyClass(xs[..i + 1], key, v) {
        KeyClassAppend(prev, [xs[i]], key, v);
        KeyClassAppend(xs[..i], [xs[i]], key, v);
      }
      i := i + 1;
    }
    assert xs[..i] == xs;
    assert |ys| == |multiset(ys)|;
  }

  /** No element occurs twice. */
  ghost predicate Distinct<T>(xs: seq<T>) {
    forall i, j :: 0 <= i < j < |xs| ==> xs[i] != xs[j]
  }

  /** A sequence without repetitions is as long as the set of its elements. */
  lemma {:induction false} DistinctCardinality<T>(xs: seq<T>)
    requires Distinct(xs)
    ensures |set x | x in xs| == |xs|
    decreases |xs|
  {
    if xs != [] {
      var init := xs[..|xs| - 1];
      DistinctCardinality(init);
      var last := xs[|xs| - 1];
      assert (set x | x in xs) == (set x | x in init) + {last};
      assert last !in (set x | x in init);
    }
  }

  /** A list without repetitions of the elements of a set is as long as the set. */
  lemma ListOfSet<T>(xs: seq<T>, s: set<T>)
    requires Distinct(xs) && forall x :: x in xs <==> x in s
    ensures |xs| == |s|
  {
    DistinctCardinality(xs);
    assert (set x | x in xs) == s;
  }

  /** A permutation of a sequence without repetitions has the same elements and no repetitions either. */
  lemma PermutationDistinct<T>(xs: seq<T>, ys: seq<T>)
    requires Distinct(xs) && multiset(xs) == multiset(ys)
    ensures Distinct(ys)
    ensures forall x :: x in ys <==> x in xs
  {
    forall x ensures x in ys <==> x in xs {
      assert x in ys <==> x in multiset(ys);
      assert x in xs <==> x in multiset(xs);
    }
    forall i, j | 0 <= i < j < |ys| ensures ys[i] != ys[j] {
      DistinctCount(xs, ys[i]);
      RepeatCount(ys, i, j);
    }
  }

  /** No element occurs twice in a sequence without repetitions. */
  lemma {:induction false} DistinctCount<T>(xs: seq<T>, x: T)
    requires Distinct(xs)
    ensures multiset(xs)[x] <= 1
    decreases |xs|
  {
    if xs != [] {
      var init := xs[..|xs| - 1];
      DistinctCount(init, x);
      assert xs == init + [xs[|xs| - 1]];
      if x == xs[|xs| - 1] {
        assert x !in init;
      }
    }
  }

  /** Two equal elements at different positions count twice. */
  lemma RepeatCount<T>(ys: seq<T>, i: nat, j: nat)
    requires i < j < |ys|
    ensures ys[i] == ys[j] ==> multiset(ys)[ys[i]] >= 2
  {
    assert ys == ys[..i] + [ys[i]] + ys[i + 1..j] + [ys[j]] + ys[j + 1..];
  }

  /** A permutation has the same elements. */
  lemma SameElements<T>(xs: seq<T>, ys: seq<T>)
    requires multiset(xs) == multiset(ys)
    ensures forall x :: x in xs <==> x in ys
  {
    forall x ensures x in xs <==> x in ys {
      assert x in xs <==> x in multiset(xs);
      assert x in ys <==> x in multiset(ys);
    }
  }

}
