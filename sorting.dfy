/** A stable sort by a "sorts strictly before" relation, as `Array.prototype.sort`
    performs it with a comparator (`before(a, b)` is `compare(a, b) < 0`).
    ECMAScript requires the sort to be stable (section 22.1.3.27 of ECMA-262,
    10th edition) and leaves the algorithm open; the model uses insertion sort. */
module Sorting {
  import opened Sequences

  /** Insert `x` into `sorted`, after every element it does not sort strictly before. */
  function Insert<T>(sorted: seq<T>, x: T, before: (T, T) -> bool): seq<T>
  {
    if sorted == [] || !before(x, sorted[|sorted| - 1]) then sorted + [x]
    else Insert(sorted[..|sorted| - 1], x, before) + [sorted[|sorted| - 1]]
  }

  /** The result of sorting `s` with a comparator whose negative outcomes are `before`. */
  function SortBy<T>(s: seq<T>, before: (T, T) -> bool): seq<T>
  {
    if s == [] then [] else Insert(SortBy(s[..|s| - 1], before), s[|s| - 1], before)
  }

  /** No element sorts strictly before an element to its left. */
  ghost predicate SortedBy<T>(s: seq<T>, before: (T, T) -> bool)
  {
    forall i, j :: 0 <= i < j < |s| ==> !before(s[j], s[i])
  }

  /** What makes a comparator consistent: `before` is asymmetric and its
      complement is transitive (a strict weak order). */
  ghost predicate StrictWeakOrder<T(!new)>(before: (T, T) -> bool)
  {
    && (forall a, b :: before(a, b) ==> !before(b, a))
    && (forall a, b, c :: !before(a, b) && !before(b, c) ==> !before(a, c))
  }

  /** Neither sorts before the other: the comparator returns 0. */
  predicate Tied<T>(before: (T, T) -> bool, a: T, b: T)
  {
    !before(a, b) && !before(b, a)
  }

  /** The elements of `s` tied with `k`, in their order in `s`. */
  function Ties<T(==)>(s: seq<T>, k: T, before: (T, T) -> bool): seq<T>
  {
    Filter(s, (e: T) => Tied(before, e, k))
  }

  // ---------------------------------------------------------------------------
  // The in-place algorithm.

  lemma InsertPastLarger<T>(p: seq<T>, x: T, j: nat, before: (T, T) -> bool)
    requires 0 < j <= |p| && before(x, p[j - 1])
    ensures Insert(p[..j], x, before) + p[j..] == Insert(p[..j - 1], x, before) + p[j - 1..]
  {
    assert p[..j][..j - 1] == p[..j - 1];
    assert p[j - 1..] == [p[j - 1]] + p[j..];
  }

  lemma InsertStops<T>(p: seq<T>, x: T, j: nat, before: (T, T) -> bool)
    requires j <= |p| && (j == 0 || !before(x, p[j - 1]))
    ensures Insert(p[..j], x, before) == p[..j] + [x]
  {
  }

  /** Swapping `x` with its left neighbour moves the gap one place left. */
  lemma SwapLeft<T>(p: seq<T>, x: T, rest: seq<T>, j: nat)
    requires 0 < j <= |p|
    ensures (p[..j] + [x] + p[j..] + rest)[j - 1 := x][j := p[j - 1]]
         == p[..j - 1] + [x] + p[j - 1..] + rest
  {
    var s := p[..j] + [x] + p[j..] + rest;
    var t := p[..j - 1] + [x] + p[j - 1..] + rest;
    assert |s| == |t|;
    assert s[j - 1 := x][j := p[j - 1]] == t;
  }

  /** The first `|p| + 1` places hold the prefix with `x` inserted; the rest is `rest`. */
  lemma Prefix3<T>(p: seq<T>, x: T, rest: seq<T>, j: nat)
    requires j <= |p|
    ensures (p[..j] + [x] + p[j..] + rest)[..|p| + 1] == p[..j] + [x] + p[j..]
    ensures (p[..j] + [x] + p[j..] + rest)[|p| + 1..] == rest
  {
    assert p[..j] + [x] + p[j..] + rest == (p[..j] + [x] + p[j..]) + rest;
  }

  /** One pass: swap `a[i]` leftwards past the elements of the sorted prefix
      `a[..i]` that it sorts strictly before. */
  method InsertAt<T>(a: array<T>, i: nat, before: (T, T) -> bool)
    requires i < a.Length
    modifies a
    ensures a[..i + 1] == Insert(old(a[..i]), old(a[i]), before)
    ensures a[i + 1..] == old(a[i + 1..])
  {
    ghost var p := a[..i];
    ghost var rest := a[i + 1..];
    var x := a[i];
    var j := i;
    assert a[..] == p[..j] + [x] + p[j..] + rest by {
      assert a[..] == a[..i] + [a[i]] + a[i + 1..];
      assert p[..j] == p && p[j..] == [];
    }
    while j > 0 && before(x, a[j - 1])
      invariant 0 <= j <= i
      invariant a[..] == p[..j] + [x] + p[j..] + rest
      invariant Insert(p, x, before) == Insert(p[..j], x, before) + p[j..]
    {
      InsertPastLarger(p, x, j, before);
      SwapLeft(p, x, rest, j);
      a[j - 1], a[j] := x, a[j - 1];
      j := j - 1;
    }
    InsertStops(p, x, j, before);
    Prefix3(p, x, rest, j);
  }

  /** `a.sort(compare)`: sorts `a` in place. */
  method SortInPlace<T>(a: array<T>, before: (T, T) -> bool)
    modifies a
    ensures a[..] == SortBy(old(a[..]), before)
  {
    ghost var s := a[..];
    var i := 0;
    while i < a.Length
      invariant 0 <= i <= a.Length
      invariant a[..i] == SortBy(s[..i], before)
      invariant a[i..] == s[i..]
    {
      assert a[i] == s[i];
      InsertAt(a, i, before);
      assert s[..i + 1][..i] == s[..i];
      i := i + 1;
    }
    assert s[..a.Length] == s;
  }

  // ---------------------------------------------------------------------------
  // What the sort promises.

  lemma {:induction false} InsertPermutes<T>(p: seq<T>, x: T, before: (T, T) -> bool)
    ensures multiset(Insert(p, x, before)) == multiset(p) + multiset{x}
  {
    if p != [] && before(x, p[|p| - 1]) {
      InsertPermutes(p[..|p| - 1], x, before);
      assert p == p[..|p| - 1] + [p[|p| - 1]];
    }
  }

  /** Sorting only reorders. */
  lemma {:induction false} SortByPermutes<T>(s: seq<T>, before: (T, T) -> bool)
    ensures multiset(SortBy(s, before)) == multiset(s)
  {
    if s != [] {
      SortByPermutes(s[..|s| - 1], before);
      InsertPermutes(SortBy(s[..|s| - 1], before), s[|s| - 1], before);
      assert s == s[..|s| - 1] + [s[|s| - 1]];
    }
  }

  lemma {:induction false} InsertSorted<T(!new)>(p: seq<T>, x: T, before: (T, T) -> bool)
    requires StrictWeakOrder(before)
    requires SortedBy(p, before)
    ensures SortedBy(Insert(p, x, before), before)
  {
    if p == [] || !before(x, p[|p| - 1]) {
      var r := p + [x];
      forall i, j | 0 <= i < j < |r| ensures !before(r[j], r[i]) {
        if j == |p| && i < |p| - 1 {
          assert !before(p[|p| - 1], p[i]);
        }
      }
    } else {
      var init, last := p[..|p| - 1], p[|p| - 1];
      InsertSorted(init, x, before);
      var q := Insert(init, x, before);
      InsertPermutes(init, x, before);
      var r := q + [last];
      forall i, j | 0 <= i < j < |r| ensures !before(r[j], r[i]) {
        if j == |q| {
          assert r[i] in multiset(init) + multiset{x};
          if r[i] != x {
            var k :| 0 <= k < |init| && init[k] == r[i];
            assert p[k] == r[i];
          }
        }
      }
    }
  }

  /** With a consistent comparator the result is sorted. */
  lemma {:induction false} SortBySorted<T(!new)>(s: seq<T>, before: (T, T) -> bool)
    requires StrictWeakOrder(before)
    ensures SortedBy(SortBy(s, before), before)
  {
    if s != [] {
      SortBySorted(s[..|s| - 1], before);
      InsertSorted(SortBy(s[..|s| - 1], before), s[|s| - 1], before);
    }
  }

  lemma {:induction false} InsertTies<T(!new)>(p: seq<T>, x: T, k: T, before: (T, T) -> bool)
    requires StrictWeakOrder(before)
    ensures Ties(Insert(p, x, before), k, before)
         == Ties(p, k, before) + (if Tied(before, x, k) then [x] else [])
  {
    var f := (e: T) => Tied(before, e, k);
    if p == [] || !before(x, p[|p| - 1]) {
      FilterSnoc(p, x, f);
    } else {
      var init, last := p[..|p| - 1], p[|p| - 1];
      assert p == init + [last];
      InsertTies(init, x, k, before);
      FilterSnoc(Insert(init, x, before), last, f);
      FilterSnoc(init, last, f);
      if Tied(before, x, k) {
        assert !Tied(before, last, k);
      }
    }
  }

  /** Stability: elements the comparator ties keep their relative order. */
  lemma {:induction false} SortByStable<T(!new)>(s: seq<T>, k: T, before: (T, T) -> bool)
    requires StrictWeakOrder(before)
    ensures Ties(SortBy(s, before), k, before) == Ties(s, k, before)
  {
    if s != [] {
      var init, last := s[..|s| - 1], s[|s| - 1];
      assert s == init + [last];
      SortByStable(init, k, before);
      InsertTies(SortBy(init, before), last, k, before);
      FilterSnoc(init, last, (e: T) => Tied(before, e, k));
    }
  }
}
