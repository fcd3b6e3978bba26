/** Array idioms the matcher is built from: `filter`, `[...new Set(xs)]`, and the
    notion of one list keeping the order of another. */
module Sequences {

  predicate NoDuplicates<T(==)>(s: seq<T>)
  {
    forall i, j :: 0 <= i < j < |s| ==> s[i] != s[j]
  }

  /** The position of the first occurrence of `x` in `s`. */
  ghost function FirstIndex<T>(s: seq<T>, x: T): (k: nat)
    requires x in s
    ensures k < |s| && s[k] == x && x !in s[..k]
  {
    if x in s[..|s| - 1] then FirstIndex(s[..|s| - 1], x) else |s| - 1
  }

  lemma FirstIndexUnique<T>(s: seq<T>, x: T, k: nat)
    requires k < |s| && s[k] == x && x !in s[..k]
    ensures FirstIndex(s, x) == k
  {
  }

  /** Every element of `sub` occurs in `s`, and `sub` lists them in the order of
      their first occurrences in `s`. */
  ghost predicate OrderedAsIn<T>(sub: seq<T>, s: seq<T>)
  {
    && (forall x :: x in sub ==> x in s)
    && forall i, j :: 0 <= i < j < |sub| ==> FirstIndex(s, sub[i]) < FirstIndex(s, sub[j])
  }

  /** In an extension of `s`, an element of `s` keeps its first index. */
  lemma FirstIndexExtend<T>(s: seq<T>, t: seq<T>, x: T)
    requires x in s
    ensures x in s + t && FirstIndex(s + t, x) == FirstIndex(s, x)
  {
    var k := FirstIndex(s, x);
    assert (s + t)[..k] == s[..k];
    FirstIndexUnique(s + t, x, k);
  }

  /** `array.filter(p)`: the elements satisfying `p`, in their order. */
  function Filter<T(==)>(s: seq<T>, p: T -> bool): (r: seq<T>)
    ensures |r| <= |s|
    ensures forall i :: 0 <= i < |r| ==> r[i] in s && p(r[i])
    ensures forall i :: 0 <= i < |s| && p(s[i]) ==> s[i] in r
  {
    if s == [] then []
    else
      var rest := Filter(s[..|s| - 1], p);
      assert s == s[..|s| - 1] + [s[|s| - 1]];
      if p(s[|s| - 1]) then rest + [s[|s| - 1]] else rest
  }

  /** Filtering a list with one more element. */
  lemma FilterSnoc<T>(a: seq<T>, y: T, f: T -> bool)
    ensures Filter(a + [y], f) == Filter(a, f) + (if f(y) then [y] else [])
  {
    assert (a + [y])[..|a|] == a;
  }

  /** Filtering acts on each part of a concatenation separately, so it keeps order. */
  lemma {:induction false} FilterConcat<T>(a: seq<T>, b: seq<T>, p: T -> bool)
    ensures Filter(a + b, p) == Filter(a, p) + Filter(b, p)
  {
    if b == [] {
      assert a + b == a;
    } else {
      var init, last := b[..|b| - 1], b[|b| - 1];
      FilterConcat(a, init, p);
      assert b == init + [last];
      assert a + b == (a + init) + [last];
      FilterSnoc(a + init, last, p);
      FilterSnoc(init, last, p);
    }
  }

  /** The filter keeps everything exactly when every element passes. */
  lemma {:induction false} FilterKeepsAll<T>(s: seq<T>, p: T -> bool)
    ensures |Filter(s, p)| == |s| <==> forall i :: 0 <= i < |s| ==> p(s[i])
    ensures (forall i :: 0 <= i < |s| ==> p(s[i])) ==> Filter(s, p) == s
  {
    if s != [] {
      var init := s[..|s| - 1];
      FilterKeepsAll(init, p);
      assert s == init + [s[|s| - 1]];
      if !p(s[|s| - 1]) {
        assert |Filter(s, p)| == |Filter(init, p)| <= |init| < |s|;
      } else if |Filter(s, p)| == |s| {
        assert |Filter(init, p)| == |init|;
        forall i | 0 <= i < |s| ensures p(s[i]) {
          if i < |init| {
            assert init[i] == s[i];
          }
        }
      }
    }
  }

  /** A filter of a duplicate-free list is duplicate-free and in the list's order. */
  lemma {:induction false} FilterOrdered<T>(s: seq<T>, p: T -> bool)
    requires NoDuplicates(s)
    ensures NoDuplicates(Filter(s, p))
    ensures OrderedAsIn(Filter(s, p), s)
  {
    if s != [] {
      var init, last := s[..|s| - 1], s[|s| - 1];
      assert s == init + [last];
      FilterOrdered(init, p);
      var rest := Filter(init, p);
      assert last !in init;
      forall x | x in rest
        ensures x in s && FirstIndex(s, x) == FirstIndex(init, x) && FirstIndex(init, x) < |init|
      {
        FirstIndexExtend(init, [last], x);
      }
      FirstIndexUnique(s, last, |init|);
    }
  }

  /** Filtering keeps relative order: of two kept elements, the one that first
      occurs earlier in the filter also first occurs earlier in the list. */
  lemma {:induction false} FilterFirstIndex<T>(s: seq<T>, p: T -> bool, x: T, y: T)
    requires x in Filter(s, p) && y in Filter(s, p)
    requires FirstIndex(Filter(s, p), x) < FirstIndex(Filter(s, p), y)
    ensures x in s && y in s && FirstIndex(s, x) < FirstIndex(s, y)
  {
    var init, last := s[..|s| - 1], s[|s| - 1];
    assert s == init + [last];
    var f, fi := Filter(s, p), Filter(init, p);
    var kx, ky := FirstIndex(f, x), FirstIndex(f, y);
    if !p(last) {
      FilterFirstIndex(init, p, x, y);
      FirstIndexExtend(init, [last], x);
      FirstIndexExtend(init, [last], y);
    } else {
      assert f == fi + [last];
      assert x in fi by { assert f[kx] == x && kx < ky < |f|; }
      FirstIndexExtend(fi, [last], x);
      assert x in init;
      FirstIndexExtend(init, [last], x);
      if y in fi {
        FirstIndexExtend(fi, [last], y);
        FilterFirstIndex(init, p, x, y);
        FirstIndexExtend(init, [last], y);
      } else {
        assert y == last;
        assert y !in init;
        FirstIndexUnique(s, y, |init|);
      }
    }
  }

  /** Keeping the order of a filter of `s` is keeping the order of `s`. */
  lemma OrderedAsInFilter<T>(sub: seq<T>, s: seq<T>, p: T -> bool)
    requires OrderedAsIn(sub, Filter(s, p))
    ensures OrderedAsIn(sub, s)
  {
    forall x | x in sub ensures x in s {
      var k := FirstIndex(Filter(s, p), x);
    }
    forall i, j | 0 <= i < j < |sub|
      ensures FirstIndex(s, sub[i]) < FirstIndex(s, sub[j])
    {
      FilterFirstIndex(s, p, sub[i], sub[j]);
    }
  }

  /** `[...new Set(s)]`: each element once, at its first occurrence. */
  function Distinct<T(==)>(s: seq<T>): (d: seq<T>)
    ensures forall i :: 0 <= i < |d| ==> d[i] in s
    ensures forall i :: 0 <= i < |s| ==> s[i] in d
  {
    if s == [] then []
    else
      var d := Distinct(s[..|s| - 1]);
      assert s == s[..|s| - 1] + [s[|s| - 1]];
      if s[|s| - 1] in d then d else d + [s[|s| - 1]]
  }

  /** Deduplication leaves no duplicates and keeps first-seen order. */
  lemma {:induction false} DistinctOrdered<T>(s: seq<T>)
    ensures NoDuplicates(Distinct(s))
    ensures OrderedAsIn(Distinct(s), s)
  {
    if s != [] {
      var init, last := s[..|s| - 1], s[|s| - 1];
      assert s == init + [last];
      DistinctOrdered(init);
      var d := Distinct(init);
      forall x | x in d
        ensures x in s && FirstIndex(s, x) == FirstIndex(init, x) && FirstIndex(init, x) < |init|
      {
        FirstIndexExtend(init, [last], x);
      }
      if last !in d {
        FirstIndexUnique(s, last, |init|);
      }
    }
  }

  /** Deduplicating a list that has no duplicates changes nothing. */
  lemma {:induction false} DistinctOfDistinct<T>(s: seq<T>)
    requires NoDuplicates(s)
    ensures Distinct(s) == s
  {
    if s != [] {
      var init := s[..|s| - 1];
      assert s == init + [s[|s| - 1]];
      DistinctOfDistinct(init);
    }
  }

  /** Keeping the order of a list is transitive. */
  lemma OrderedAsInTrans<T>(a: seq<T>, b: seq<T>, c: seq<T>)
    requires OrderedAsIn(a, b) && OrderedAsIn(b, c)
    ensures OrderedAsIn(a, c)
  {
    forall i, j | 0 <= i < j < |a|
      ensures FirstIndex(c, a[i]) < FirstIndex(c, a[j])
    {
      var bi, bj := FirstIndex(b, a[i]), FirstIndex(b, a[j]);
      assert b[bi] == a[i] && b[bj] == a[j];
    }
  }
}
