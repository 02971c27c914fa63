/**
 * Reference definitions for the list operations the application uses:
 * Array.prototype.filter, "is an order-preserving subsequence of",
 * `[...new Set(xs)]` (distinct values in first-occurrence order) and a
 * stable sort by a key (Array.prototype.sort with a three-way comparator,
 * Python's sorted).
 */
module Seqs {
  import opened Text

  /** r can be obtained from s by deleting elements, keeping the order of the rest. */
  predicate IsSubseq<T(==)>(r: seq<T>, s: seq<T>)
    decreases |s|
  {
    if s == [] then r == []
    else (r != [] && r[0] == s[0] && IsSubseq(r[1..], s[1..])) || IsSubseq(r, s[1..])
  }

  lemma {:induction false} IsSubseqTransitive<T>(a: seq<T>, b: seq<T>, c: seq<T>)
    requires IsSubseq(a, b) && IsSubseq(b, c)
    ensures IsSubseq(a, c)
    decreases |c|
  {
    if c != [] {
      if IsSubseq(b, c[1..]) {
        IsSubseqTransitive(a, b, c[1..]);
      } else {
        assert b != [] && b[0] == c[0] && IsSubseq(b[1..], c[1..]);
        if a != [] && a[0] == b[0] && IsSubseq(a[1..], b[1..]) {
          IsSubseqTransitive(a[1..], b[1..], c[1..]);
        } else {
          IsSubseqTransitive(a, b[1..], c[1..]);
        }
      }
    }
  }

  lemma {:induction false} IsSubseqRefl<T>(s: seq<T>)
    ensures IsSubseq(s, s)
    decreases |s|
  {
    if s != [] {
      IsSubseqRefl(s[1..]);
    }
  }

  lemma {:induction false} IsSubseqLength<T>(r: seq<T>, s: seq<T>)
    requires IsSubseq(r, s)
    ensures |r| <= |s|
    decreases |s|
  {
    if s != [] {
      if r != [] && r[0] == s[0] && IsSubseq(r[1..], s[1..]) {
        IsSubseqLength(r[1..], s[1..]);
      } else {
        IsSubseqLength(r, s[1..]);
      }
    }
  }

  /**
   * Array.prototype.filter: keeps, in order, exactly the elements that satisfy p,
   * each as many times as it occurs.
   */
  function Filter<T(==,!new)>(p: T -> bool, s: seq<T>): (r: seq<T>)
    ensures |r| <= |s|
    ensures forall x :: multiset(r)[x] == if p(x) then multiset(s)[x] else 0
    ensures IsSubseq(r, s)
    decreases |s|
  {
    if s == [] then []
    else
      var rest := Filter(p, s[1..]);
      assert s == [s[0]] + s[1..];
      if p(s[0]) then [s[0]] + rest else rest
  }

  /** A filter that every element passes is the identity. */
  lemma {:induction false} FilterAll<T(!new)>(p: T -> bool, s: seq<T>)
    requires forall i :: 0 <= i < |s| ==> p(s[i])
    ensures Filter(p, s) == s
    decreases |s|
  {
    if s != [] {
      FilterAll(p, s[1..]);
    }
  }

  /** Filtering distributes over concatenation. */
  lemma {:induction false} FilterConcat<T(!new)>(p: T -> bool, a: seq<T>, b: seq<T>)
    ensures Filter(p, a + b) == Filter(p, a) + Filter(p, b)
    decreases |a|
  {
    if a == [] {
      assert a + b == b;
    } else {
      var ab := a + b;
      assert ab[0] == a[0];
      assert ab[1..] == a[1..] + b;
      FilterConcat(p, a[1..], b);
    }
  }

  predicate NoDups<T(==)>(s: seq<T>) {
    forall i, j :: 0 <= i < j < |s| ==> s[i] != s[j]
  }

  lemma {:induction false} NoDupsCount<T>(s: seq<T>)
    requires NoDups(s)
    ensures forall x :: multiset(s)[x] <= 1
    decreases |s|
  {
    if s != [] {
      assert NoDups(s[1..]) by {
        forall i, j | 0 <= i < j < |s[1..]| ensures s[1..][i] != s[1..][j] {
          assert s[1..][i] == s[i + 1] && s[1..][j] == s[j + 1];
        }
      }
      NoDupsCount(s[1..]);
      assert s == [s[0]] + s[1..];
      assert s[0] !in s[1..];
    }
  }

  lemma DupCount<T>(s: seq<T>, i: int, j: int)
    requires 0 <= i < j < |s| && s[i] == s[j]
    ensures multiset(s)[s[i]] >= 2
  {
    assert s == s[..j] + s[j..];
    assert s[i] in s[..j];
    assert s[j] in s[j..];
  }

  /** Having no duplicates is a property of the multiset of elements. */
  lemma NoDupsPermutation<T>(a: seq<T>, b: seq<T>)
    requires NoDups(a) && multiset(a) == multiset(b)
    ensures NoDups(b)
  {
    NoDupsCount(a);
    forall i, j | 0 <= i < j < |b| ensures b[i] != b[j] {
      if b[i] == b[j] {
        DupCount(b, i, j);
        assert false;
      }
    }
  }

  /** Index of the first occurrence of x in s. */
  function FirstIndex<T(==)>(s: seq<T>, x: T): (i: nat)
    requires x in s
    ensures i < |s| && s[i] == x
    ensures forall k :: 0 <= k < i ==> s[k] != x
    decreases |s|
  {
    if s[0] == x then 0 else 1 + FirstIndex(s[1..], x)
  }

  lemma FirstIndexAppend<T>(s: seq<T>, x: T, y: T)
    requires y in s
    ensures FirstIndex(s + [x], y) == FirstIndex(s, y)
  {
    var i := FirstIndex(s, y);
    var j := FirstIndex(s + [x], y);
    assert (s + [x])[i] == y;
  }

  /**
   * `[...new Set(s)]`: the distinct values of s, each once, in the order of
   * their first occurrence.
   */
  function Distinct<T(==,!new)>(s: seq<T>): (r: seq<T>)
    ensures NoDups(r)
    ensures forall x :: x in r <==> x in s
    ensures forall i, j :: 0 <= i < j < |r| ==> FirstIndex(s, r[i]) < FirstIndex(s, r[j])
    decreases |s|
  {
    if s == [] then []
    else
      var init := s[..|s| - 1];
      var x := s[|s| - 1];
      var d := Distinct(init);
      assert s == init + [x];
      forall y | y in init ensures FirstIndex(s, y) == FirstIndex(init, y) {
        FirstIndexAppend(init, x, y);
      }
      if x in d then d
      else
        assert FirstIndex(s, x) == |s| - 1;
        d + [x]
  }

  /** Distinct grows by the new element exactly when it has not been seen. */
  lemma DistinctSnoc<T(!new)>(s: seq<T>, x: T)
    ensures Distinct(s + [x]) == if x in Distinct(s) then Distinct(s) else Distinct(s) + [x]
  {
    assert (s + [x])[..|s|] == s;
  }

  /** Array.prototype.map / a list comprehension: f applied to every element. */
  function MapSeq<T, U>(f: T -> U, s: seq<T>): (r: seq<U>)
    ensures |r| == |s|
    ensures forall i :: 0 <= i < |s| ==> r[i] == f(s[i])
  {
    seq(|s|, i requires 0 <= i < |s| => f(s[i]))
  }

  /** The first element's image, then the images of the rest. */
  lemma MapSeqCons<T, U>(f: T -> U, s: seq<T>)
    requires s != []
    ensures MapSeq(f, s) == [f(s[0])] + MapSeq(f, s[1..])
  {
  }

  lemma MapSeqPrefix<T, U>(f: T -> U, s: seq<T>, k: nat)
    requires k < |s|
    ensures MapSeq(f, s[..k + 1]) == MapSeq(f, s[..k]) + [f(s[k])]
  {
    var a := MapSeq(f, s[..k + 1]);
    var b := MapSeq(f, s[..k]) + [f(s[k])];
    forall i | 0 <= i < |a| ensures a[i] == b[i] {
      if i < k {
        assert s[..k + 1][i] == s[..k][i];
      }
    }
  }

  /** A sort key: a timestamp or priority, or a string compared lexicographically. */
  datatype Key = NumKey(n: int) | TextKey(t: string)

  predicate KeyLt(a: Key, b: Key) {
    match (a, b)
    case (NumKey(x), NumKey(y)) => x < y
    case (TextKey(x), TextKey(y)) => StrLt(x, y)
    case (NumKey(_), TextKey(_)) => true
    case (TextKey(_), NumKey(_)) => false
  }

  lemma KeyLtIrreflexive(a: Key)
    ensures !KeyLt(a, a)
  {
    if a.TextKey? {
      StrLtIrreflexive(a.t);
    }
  }

  lemma KeyLtTransitive(a: Key, b: Key, c: Key)
    requires KeyLt(a, b) && KeyLt(b, c)
    ensures KeyLt(a, c)
  {
    if a.TextKey? && b.TextKey? && c.TextKey? {
      StrLtTransitive(a.t, b.t, c.t);
    }
  }

  lemma KeyLtTotal(a: Key, b: Key)
    ensures a == b || KeyLt(a, b) || KeyLt(b, a)
  {
    if a.TextKey? && b.TextKey? {
      StrLtTotal(a.t, b.t);
    }
  }

  /** x strictly precedes y in the requested direction. */
  predicate Ahead(x: Key, y: Key, asc: bool) {
    if asc then KeyLt(x, y) else KeyLt(y, x)
  }

  lemma AheadIrreflexive(x: Key, asc: bool)
    ensures !Ahead(x, x, asc)
  {
    KeyLtIrreflexive(x);
  }

  lemma AheadAsymmetric(x: Key, y: Key, asc: bool)
    requires Ahead(x, y, asc)
    ensures !Ahead(y, x, asc)
  {
    if Ahead(y, x, asc) {
      if asc {
        KeyLtTransitive(x, y, x);
      } else {
        KeyLtTransitive(y, x, y);
      }
      KeyLtIrreflexive(x);
      KeyLtIrreflexive(y);
    }
  }

  /** "Not behind" is transitive: the order is a total preorder on elements. */
  lemma NotAheadTransitive(a: Key, b: Key, c: Key, asc: bool)
    requires !Ahead(b, a, asc) && !Ahead(c, b, asc)
    ensures !Ahead(c, a, asc)
  {
    KeyLtTotal(a, b);
    if Ahead(c, a, asc) && a != b {
      assert Ahead(a, b, asc);
      if asc {
        KeyLtTransitive(c, a, b);
      } else {
        KeyLtTransitive(b, a, c);
      }
    }
  }

  /** No element is strictly ahead of an element before it. */
  predicate Sorted<T>(s: seq<T>, key: T -> Key, asc: bool) {
    forall i, j :: 0 <= i < j < |s| ==> !Ahead(key(s[j]), key(s[i]), asc)
  }

  /** The elements of s carrying key k, in order. */
  function KeyClass<T>(s: seq<T>, key: T -> Key, k: Key): seq<T>
    decreases |s|
  {
    if s == [] then []
    else (if key(s[0]) == k then [s[0]] else []) + KeyClass(s[1..], key, k)
  }

  /** Places x in front of the first element of t that x is not behind. */
  function InsertFront<T>(x: T, t: seq<T>, key: T -> Key, asc: bool): (r: seq<T>)
    ensures |r| == |t| + 1
    ensures multiset(r) == multiset(t) + multiset{x}
    decreases |t|
  {
    if t == [] || !Ahead(key(t[0]), key(x), asc) then [x] + t
    else
      assert t == [t[0]] + t[1..];
      [t[0]] + InsertFront(x, t[1..], key, asc)
  }

  lemma {:induction false} InsertFrontSorted<T>(x: T, t: seq<T>, key: T -> Key, asc: bool)
    requires Sorted(t, key, asc)
    ensures Sorted(InsertFront(x, t, key, asc), key, asc)
    decreases |t|
  {
    if t == [] {
    } else if !Ahead(key(t[0]), key(x), asc) {
      var r := [x] + t;
      forall j | 0 < j < |r| ensures !Ahead(key(r[j]), key(x), asc) {
        if j > 1 {
          NotAheadTransitive(key(x), key(t[0]), key(r[j]), asc);
        }
      }
    } else {
      var t' := t[1..];
      assert Sorted(t', key, asc);
      InsertFrontSorted(x, t', key, asc);
      var r' := InsertFront(x, t', key, asc);
      forall j | 0 <= j < |r'| ensures !Ahead(key(r'[j]), key(t[0]), asc) {
        assert r'[j] in multiset(r');
        if r'[j] == x {
          AheadAsymmetric(key(t[0]), key(x), asc);
        } else {
          assert r'[j] in multiset(t');
          var m :| 0 <= m < |t'| && t'[m] == r'[j];
          assert t[m + 1] == r'[j];
        }
      }
    }
  }

  lemma KeyClassCons<T>(x: T, t: seq<T>, key: T -> Key, k: Key)
    ensures KeyClass([x] + t, key, k) == (if key(x) == k then [x] else []) + KeyClass(t, key, k)
  {
    var r := [x] + t;
    assert r[0] == x && r[1..] == t;
  }

  /** An element ahead of x can move in front of a class list that x heads. */
  lemma KeyClassPast<T>(y: T, x: T, r: seq<T>, t: seq<T>, key: T -> Key, asc: bool, k: Key)
    requires Ahead(key(y), key(x), asc)
    requires KeyClass(r, key, k) == (if key(x) == k then [x] else []) + KeyClass(t, key, k)
    ensures KeyClass([y] + r, key, k) == (if key(x) == k then [x] else []) + KeyClass([y] + t, key, k)
  {
    KeyClassCons(y, r, key, k);
    KeyClassCons(y, t, key, k);
    if key(x) == k {
      AheadIrreflexive(key(x), asc);
      assert key(y) != k;
    }
  }

  lemma {:induction false} InsertFrontClass<T>(x: T, t: seq<T>, key: T -> Key, asc: bool, k: Key)
    ensures KeyClass(InsertFront(x, t, key, asc), key, k)
         == (if key(x) == k then [x] else []) + KeyClass(t, key, k)
    decreases |t|
  {
    if t == [] || !Ahead(key(t[0]), key(x), asc) {
      KeyClassCons(x, t, key, k);
    } else {
      InsertFrontClass(x, t[1..], key, asc, k);
      KeyClassPast(t[0], x, InsertFront(x, t[1..], key, asc), t[1..], key, asc, k);
      assert [t[0]] + t[1..] == t;
    }
  }

  /**
   * Stable sort by key: ascending when asc holds, descending otherwise. The
   * result is a permutation, is sorted, and keeps the input order among
   * elements with equal keys.
   */
  function SortBy<T>(s: seq<T>, key: T -> Key, asc: bool): (r: seq<T>)
    ensures |r| == |s|
    ensures multiset(r) == multiset(s)
    ensures Sorted(r, key, asc)
    ensures forall k :: KeyClass(r, key, k) == KeyClass(s, key, k)
    decreases |s|
  {
    if s == [] then []
    else
      var t := SortBy(s[1..], key, asc);
      InsertFrontSorted(s[0], t, key, asc);
      assert s == [s[0]] + s[1..];
      assert forall k :: KeyClass(InsertFront(s[0], t, key, asc), key, k) == KeyClass(s, key, k) by {
        forall k {
          InsertFrontClass(s[0], t, key, asc, k);
        }
      }
      InsertFront(s[0], t, key, asc)
  }

  /** Sorting a list that is already sorted changes nothing (so sorting is idempotent). */
  lemma {:induction false} SortBySorted<T>(s: seq<T>, key: T -> Key, asc: bool)
    requires Sorted(s, key, asc)
    ensures SortBy(s, key, asc) == s
    decreases |s|
  {
    if s != [] {
      var t := s[1..];
      assert Sorted(t, key, asc) by {
        forall i, j | 0 <= i < j < |t| ensures !Ahead(key(t[j]), key(t[i]), asc) {
          assert t[i] == s[i + 1] && t[j] == s[j + 1];
        }
      }
      SortBySorted(t, key, asc);
      if t != [] {
        assert t[0] == s[1];
      }
      assert s == [s[0]] + t;
    }
  }

  /** A sorted list below a head that nothing in it is ahead of is sorted. */
  lemma SortedCons<T>(x: T, rest: seq<T>, key: T -> Key, asc: bool)
    requires Sorted(rest, key, asc)
    requires forall y :: y in rest ==> !Ahead(key(y), key(x), asc)
    ensures Sorted([x] + rest, key, asc)
  {
    var r := [x] + rest;
    forall i, j | 0 <= i < j < |r| ensures !Ahead(key(r[j]), key(r[i]), asc) {
      assert r[j] == rest[j - 1];
      if i > 0 {
        assert r[i] == rest[i - 1];
      }
    }
  }

  /** The tail of a sorted list is sorted. */
  lemma SortedTail<T>(s: seq<T>, key: T -> Key, asc: bool)
    requires s != [] && Sorted(s, key, asc)
    ensures Sorted(s[1..], key, asc)
    ensures forall y :: y in s[1..] ==> !Ahead(key(y), key(s[0]), asc)
  {
    var t := s[1..];
    forall i, j | 0 <= i < j < |t| ensures !Ahead(key(t[j]), key(t[i]), asc) {
      assert t[i] == s[i + 1] && t[j] == s[j + 1];
    }
    forall y | y in t ensures !Ahead(key(y), key(s[0]), asc) {
      var m :| 0 <= m < |t| && t[m] == y;
      assert s[m + 1] == y;
    }
  }

  /** Every element a filter keeps comes from its input. */
  lemma FilterMembers<T(!new)>(p: T -> bool, s: seq<T>)
    ensures forall y :: y in Filter(p, s) ==> y in s
  {
    forall y | y in Filter(p, s) ensures y in s {
      assert y in multiset(Filter(p, s));
    }
  }

  /** Filtering a sorted list leaves it sorted. */
  lemma {:induction false} FilterSorted<T(!new)>(p: T -> bool, s: seq<T>, key: T -> Key, asc: bool)
    requires Sorted(s, key, asc)
    ensures Sorted(Filter(p, s), key, asc)
    decreases |s|
  {
    if s != [] {
      SortedTail(s, key, asc);
      FilterSorted(p, s[1..], key, asc);
      if p(s[0]) {
        FilterMembers(p, s[1..]);
        SortedCons(s[0], Filter(p, s[1..]), key, asc);
      }
    }
  }

  predicate StrictlyIncreasing(s: seq<string>) {
    forall i, j :: 0 <= i < j < |s| ==> StrLt(s[i], s[j])
  }

  /** Python's sorted / JavaScript's default sort on a list of strings. */
  function SortStrings(s: seq<string>): (r: seq<string>)
    ensures multiset(r) == multiset(s)
    ensures forall i, j :: 0 <= i < j < |r| ==> !StrLt(r[j], r[i])
    ensures NoDups(s) ==> StrictlyIncreasing(r)
  {
    var r := SortBy(s, (x: string) => TextKey(x), true);
    if NoDups(s) then
      NoDupsPermutation(s, r);
      assert StrictlyIncreasing(r) by {
        forall i, j | 0 <= i < j < |r| ensures StrLt(r[i], r[j]) {
          StrLtTotal(r[i], r[j]);
        }
      }
      r
    else r
  }

  lemma HeadIsMember<T>(s: seq<T>)
    ensures s != [] ==> s[0] in s
  {
  }

  /** The distinct values, sorted: strictly increasing, with the same members. */
  lemma SortDistinctMembers(s: seq<string>)
    ensures StrictlyIncreasing(SortStrings(Distinct(s)))
    ensures forall x :: x in SortStrings(Distinct(s)) <==> x in s
  {
    var d := Distinct(s);
    var r := SortStrings(d);
    assert forall x :: x in r <==> x in multiset(r);
    assert forall x :: x in d <==> x in multiset(d);
  }

  /** A strictly increasing list is determined by its set of elements. */
  lemma {:induction false} StrictlyIncreasingUnique(a: seq<string>, b: seq<string>)
    requires StrictlyIncreasing(a) && StrictlyIncreasing(b)
    requires forall x :: x in a <==> x in b
    ensures a == b
    decreases |a|
  {
    if a == [] {
      HeadIsMember(b);
    } else {
      assert a[0] in a;
      assert b != [];
      assert b[0] in b;
      if a[0] != b[0] {
        var i :| 0 <= i < |a| && a[i] == b[0];
        var j :| 0 <= j < |b| && b[j] == a[0];
        assert i > 0 && j > 0;
        StrLtTransitive(a[0], b[0], a[0]);
        StrLtIrreflexive(a[0]);
      }
      forall x ensures x in a[1..] <==> x in b[1..] {
        if x in a[1..] {
          var i :| 0 <= i < |a[1..]| && a[1..][i] == x;
          assert StrLt(a[0], a[i + 1]);
          StrLtIrreflexive(x);
          assert x in b && x != b[0];
        }
        if x in b[1..] {
          var i :| 0 <= i < |b[1..]| && b[1..][i] == x;
          assert StrLt(b[0], b[i + 1]);
          StrLtIrreflexive(x);
          assert x in a && x != a[0];
        }
      }
      StrictlyIncreasingUnique(a[1..], b[1..]);
      assert a == [a[0]] + a[1..] && b == [b[0]] + b[1..];
    }
  }
}
