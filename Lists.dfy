/**
 * Array operations App.js chains together: `slice(0, n)`, the `indexOf`-filter that removes
 * duplicates, and `Array.prototype.sort`, which is stable. The sort is a stable insertion sort
 * parameterised by the comparator's "strictly before" relation.
 */
module Lists {

  /** `s.slice(0, n)` */
  function Take<T>(s: seq<T>, n: nat): (r: seq<T>)
    ensures |r| == if n < |s| then n else |s|
    ensures r == s[..|r|]
  {
    if n < |s| then s[..n] else s
  }

  predicate Distinct<T(==)>(s: seq<T>) {
    forall i, j :: 0 <= i < j < |s| ==> s[i] != s[j]
  }

  /** `s.indexOf(x)` for a value that occurs: the position of its first occurrence. */
  function FirstIndex<T(==)>(s: seq<T>, x: T): (i: nat)
    requires x in s
    ensures i < |s| && s[i] == x
    ensures forall j :: 0 <= j < i ==> s[j] != x
  {
    if s[0] == x then 0 else 1 + FirstIndex(s[1..], x)
  }

  /** Only one position holds the first occurrence of a value. */
  lemma FirstIndexUnique<T>(s: seq<T>, x: T, i: nat)
    requires i < |s| && s[i] == x
    requires forall j :: 0 <= j < i ==> s[j] != x
    ensures FirstIndex(s, x) == i
  {
  }

  /** Appending a value leaves the first occurrence of a value already present where it was. */
  lemma FirstIndexSnoc<T>(s: seq<T>, x: T, y: T)
    requires y in s
    ensures FirstIndex(s + [x], y) == FirstIndex(s, y)
  {
    var j := FirstIndex(s, y);
    FirstIndexUnique(s + [x], y, j);
  }

  /** A new value appended first occurs at the end. */
  lemma FirstIndexSnocNew<T>(s: seq<T>, x: T)
    requires x !in s
    ensures FirstIndex(s + [x], x) == |s|
  {
    FirstIndexUnique(s + [x], x, |s|);
  }

  /**
   * `s.filter((v, i, a) => a.indexOf(v) === i)`: the element at index i is kept exactly when it
   * does not occur in `s[..i]`, so the first occurrence of every value survives, in order.
   */
  function Dedup<T(==)>(s: seq<T>): (r: seq<T>)
    ensures Distinct(r)
    ensures forall i :: 0 <= i < |r| ==> r[i] in s
    ensures forall i :: 0 <= i < |s| ==> s[i] in r
    ensures forall i, j :: 0 <= i < j < |r| ==> FirstIndex(s, r[i]) < FirstIndex(s, r[j])
    ensures |r| <= |s|
  {
    if s == [] then []
    else
      var p, x := s[..|s| - 1], s[|s| - 1];
      assert s == p + [x];
      if x in p then
        DedupStepSeen(p, x, Dedup(p));
        Dedup(p)
      else
        DedupStepNew(p, x, Dedup(p));
        Dedup(p) + [x]
  }

  /** A value already seen leaves the de-duplicated list as it is. */
  lemma DedupStepSeen<T>(p: seq<T>, x: T, r: seq<T>)
    requires x in p
    requires forall i :: 0 <= i < |r| ==> r[i] in p
    requires forall i :: 0 <= i < |p| ==> p[i] in r
    requires forall i, j :: 0 <= i < j < |r| ==> FirstIndex(p, r[i]) < FirstIndex(p, r[j])
    ensures forall i :: 0 <= i < |r| ==> r[i] in p + [x]
    ensures forall i :: 0 <= i < |p + [x]| ==> (p + [x])[i] in r
    ensures forall i, j :: 0 <= i < j < |r| ==> FirstIndex(p + [x], r[i]) < FirstIndex(p + [x], r[j])
  {
    var s := p + [x];
    forall i | 0 <= i < |s| ensures s[i] in r {
      if i < |p| {
        assert s[i] == p[i];
      }
    }
    forall i, j | 0 <= i < j < |r| ensures FirstIndex(s, r[i]) < FirstIndex(s, r[j]) {
      FirstIndexSnoc(p, x, r[i]);
      FirstIndexSnoc(p, x, r[j]);
    }
  }

  /** A new value is appended to the de-duplicated list. */
  lemma DedupStepNew<T>(p: seq<T>, x: T, r: seq<T>)
    requires x !in p && Distinct(r)
    requires forall i :: 0 <= i < |r| ==> r[i] in p
    requires forall i :: 0 <= i < |p| ==> p[i] in r
    requires forall i, j :: 0 <= i < j < |r| ==> FirstIndex(p, r[i]) < FirstIndex(p, r[j])
    ensures Distinct(r + [x])
    ensures forall i :: 0 <= i < |r + [x]| ==> (r + [x])[i] in p + [x]
    ensures forall i :: 0 <= i < |p + [x]| ==> (p + [x])[i] in r + [x]
    ensures forall i, j :: 0 <= i < j < |r + [x]| ==>
      FirstIndex(p + [x], (r + [x])[i]) < FirstIndex(p + [x], (r + [x])[j])
  {
    var s, r' := p + [x], r + [x];
    FirstIndexSnocNew(p, x);
    forall i | 0 <= i < |s| ensures s[i] in r' {
      if i < |p| {
        assert s[i] == p[i];
      }
    }
    forall i, j | 0 <= i < j < |r'| ensures r'[i] != r'[j] && FirstIndex(s, r'[i]) < FirstIndex(s, r'[j]) {
      assert r'[i] == r[i];
      FirstIndexSnoc(p, x, r[i]);
      if j < |r| {
        assert r'[j] == r[j];
        FirstIndexSnoc(p, x, r[j]);
      }
    }
  }

  /** Appending a value keeps it exactly when it is new. */
  lemma DedupSnoc<T>(s: seq<T>, x: T)
    ensures Dedup(s + [x]) == Dedup(s) + (if x in s then [] else [x])
  {
    assert (s + [x])[..|s|] == s;
  }

  /** A permutation of a sequence without repetitions has no repetitions either. */
  lemma {:induction false} DistinctPermutation<T>(a: seq<T>, b: seq<T>)
    requires multiset(a) == multiset(b) && Distinct(a)
    ensures Distinct(b)
  {
    DistinctCounts(a);
    forall i, j | 0 <= i < j < |b| ensures b[i] != b[j] {
      assert b == b[..i] + [b[i]] + b[i + 1..j] + [b[j]] + b[j + 1..];
      assert multiset(b)[b[i]] >= 1 + multiset{b[j]}[b[i]];
      assert multiset{b[j]}[b[i]] == 0;
    }
  }

  lemma {:induction false} DistinctCounts<T>(s: seq<T>)
    requires Distinct(s)
    ensures forall x :: multiset(s)[x] <= 1
  {
    if s != [] {
      var p := s[..|s| - 1];
      assert s == p + [s[|s| - 1]];
      assert Distinct(p);
      DistinctCounts(p);
      assert s[|s| - 1] !in p;
    }
  }

  /** `before(a, b)` is what a comparator returning a negative number says; it must be a strict order. */
  ghost predicate StrictOrder<T(!new)>(before: (T, T) -> bool) {
    && (forall a :: !before(a, a))
    && (forall a, b, c :: before(a, b) && before(b, c) ==> before(a, c))
  }

  /** No element is strictly before one that precedes it. */
  predicate Sorted<T>(s: seq<T>, before: (T, T) -> bool) {
    forall i, j :: 0 <= i < j < |s| ==> !before(s[j], s[i])
  }

  /** Puts `x` after every element it is not strictly before, which keeps equal elements in arrival order. */
  function Insert<T>(s: seq<T>, x: T, before: (T, T) -> bool): (r: seq<T>)
    ensures |r| == |s| + 1
    ensures multiset(r) == multiset(s) + multiset{x}
  {
    if s == [] || before(x, s[0]) then [x] + s
    else
      assert s == [s[0]] + s[1..];
      [s[0]] + Insert(s[1..], x, before)
  }

  /** `[...s].sort(cmp)`: a stable sort by repeated insertion, from the first element to the last. */
  function SortBy<T>(s: seq<T>, before: (T, T) -> bool): (r: seq<T>)
    ensures |r| == |s|
    ensures multiset(r) == multiset(s)
  {
    if s == [] then []
    else
      assert s == s[..|s| - 1] + [s[|s| - 1]];
      Insert(SortBy(s[..|s| - 1], before), s[|s| - 1], before)
  }

  lemma {:induction false} InsertSorted<T(!new)>(s: seq<T>, x: T, before: (T, T) -> bool)
    requires StrictOrder(before) && Sorted(s, before)
    ensures Sorted(Insert(s, x, before), before)
  {
    if s == [] || before(x, s[0]) {
    } else {
      var t := s[1..];
      assert Sorted(t, before);
      InsertSorted(t, x, before);
      var r := Insert(t, x, before);
      forall y | y in r ensures !before(y, s[0]) {
        assert y in multiset(r);
      }
    }
  }

  /** The result of the sort is ordered and is a permutation of its input. */
  lemma {:induction false} SortBySorted<T(!new)>(s: seq<T>, before: (T, T) -> bool)
    requires StrictOrder(before)
    ensures Sorted(SortBy(s, before), before)
    ensures multiset(SortBy(s, before)) == multiset(s)
  {
    if s != [] {
      SortBySorted(s[..|s| - 1], before);
      InsertSorted(SortBy(s[..|s| - 1], before), s[|s| - 1], before);
    }
  }

  /** Sorting an already ordered sequence leaves it as it is (the sort is stable). */
  lemma {:induction false} SortByOfSorted<T>(s: seq<T>, before: (T, T) -> bool)
    requires Sorted(s, before)
    ensures SortBy(s, before) == s
  {
    if s != [] {
      var p := s[..|s| - 1];
      assert Sorted(p, before);
      SortByOfSorted(p, before);
      InsertAtEnd(p, s[|s| - 1], before);
    }
  }

  lemma {:induction false} InsertAtEnd<T>(s: seq<T>, x: T, before: (T, T) -> bool)
    requires forall i :: 0 <= i < |s| ==> !before(x, s[i])
    ensures Insert(s, x, before) == s + [x]
  {
    if s != [] {
      InsertAtEnd(s[1..], x, before);
    }
  }
}
