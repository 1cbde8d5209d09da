/**
  The collection operations the views call on Swift arrays: `filter`,
  `firstIndex(where:)` and `sorted(by:)`. The sort is an insertion sort
  driven by the caller's "comes before" predicate, as `sorted(by:)` is.
 */
module Sequences {

  import opened Wrappers

  /** `s.filter(p)`: the elements of `s` that satisfy `p`, each kept as often as it occurs. */
  function Filter<T(==,!new)>(s: seq<T>, p: T -> bool): (r: seq<T>)
    ensures |r| <= |s|
    ensures forall x :: x in r <==> x in s && p(x)
    ensures forall x :: multiset(r)[x] == if p(x) then multiset(s)[x] else 0
    decreases |s|
  {
    if s == [] then []
    else
      assert s == [s[0]] + s[1..];
      if p(s[0]) then [s[0]] + Filter(s[1..], p) else Filter(s[1..], p)
  }

  /**
    `filter` keeps the input order: filtering a concatenation filters each part
    and concatenates the results, so the kept elements of `a` come before those of `b`.
   */
  lemma {:induction false} FilterAppend<T(!new)>(a: seq<T>, b: seq<T>, p: T -> bool)
    ensures Filter(a + b, p) == Filter(a, p) + Filter(b, p)
    decreases |a|
  {
    if a == [] {
      assert a + b == b;
    } else {
      assert (a + b)[0] == a[0];
      assert (a + b)[1..] == a[1..] + b;
      FilterAppend(a[1..], b, p);
      FilterFirst(a + b, p);
      FilterFirst(a, p);
      SeqAssociative(if p(a[0]) then [a[0]] else [], Filter(a[1..], p), Filter(b, p));
    }
  }

  /** One step of `Filter`: the first element, if it passes, then the filtered rest. */
  lemma FilterFirst<T(!new)>(s: seq<T>, p: T -> bool)
    requires s != []
    ensures Filter(s, p) == (if p(s[0]) then [s[0]] else []) + Filter(s[1..], p)
  {
  }

  /** Filtering one element keeps it exactly when it passes. */
  lemma FilterSingleton<T(!new)>(x: T, p: T -> bool)
    ensures Filter([x], p) == if p(x) then [x] else []
  {
    assert [x][1..] == [];
  }

  /** Two tests that agree on every element keep the same elements. */
  lemma {:induction false} FilterSameTest<T(!new)>(s: seq<T>, p: T -> bool, q: T -> bool)
    requires forall i :: 0 <= i < |s| ==> p(s[i]) == q(s[i])
    ensures Filter(s, p) == Filter(s, q)
    decreases |s|
  {
    if s != [] {
      FilterSameTest(s[1..], p, q);
    }
  }

  /** A filter that every element passes leaves the sequence as it was. */
  lemma {:induction false} FilterKeepsAll<T(!new)>(s: seq<T>, p: T -> bool)
    requires forall i :: 0 <= i < |s| ==> p(s[i])
    ensures Filter(s, p) == s
    decreases |s|
  {
    if s != [] {
      FilterKeepsAll(s[1..], p);
    }
  }

  /** `s.firstIndex(where: p)`: the least index whose element satisfies `p`, if any. */
  function FirstIndex<T>(s: seq<T>, p: T -> bool): (r: Option<nat>)
    ensures r.Some? ==> r.value < |s| && p(s[r.value])
    ensures r.Some? ==> forall j :: 0 <= j < r.value ==> !p(s[j])
    ensures r.None? <==> forall j :: 0 <= j < |s| ==> !p(s[j])
    decreases |s|
  {
    if s == [] then None
    else if p(s[0]) then Some(0)
    else match FirstIndex(s[1..], p)
      case None => None
      case Some(k) => Some(k + 1)
  }

  /** An index whose element is the first to satisfy `p` is the one `firstIndex(where:)` finds. */
  lemma FirstIndexIsFirstMatch<T>(s: seq<T>, p: T -> bool, k: nat)
    requires k < |s| && p(s[k])
    requires forall j :: 0 <= j < k ==> !p(s[j])
    ensures FirstIndex(s, p) == Some(k)
  {
    var r := FirstIndex(s, p);
    if r.Some? && r.value > k {
      assert false;
    }
  }

  /** Whether `f` yields a value for `x`. */
  function Yields<S, T>(f: S -> Option<T>): S -> bool
  {
    (x: S) => f(x).Some?
  }

  /**
    `s.compactMap(f)`: one value for each element for which `f` yields one, in
    the elements' order; the elements for which it yields `nil` are dropped.
   */
  function CompactMap<S, T>(s: seq<S>, f: S -> Option<T>): seq<T>
    decreases |s|
  {
    if s == [] then []
    else
      match f(s[|s| - 1])
      case Some(y) => CompactMap(s[..|s| - 1], f) + [y]
      case None => CompactMap(s[..|s| - 1], f)
  }

  /** One value for each element for which `f` yields one. */
  lemma {:induction false} CompactMapCount<S(!new), T>(s: seq<S>, f: S -> Option<T>)
    ensures |CompactMap(s, f)| == |Filter(s, Yields(f))|
    decreases |s|
  {
    if s != [] {
      var front, last := s[..|s| - 1], s[|s| - 1];
      assert s == front + [last];
      FilterAppend(front, [last], Yields(f));
      FilterSingleton(last, Yields(f));
      CompactMapCount(front, f);
    }
  }

  /** One step of `CompactMap`, from the end: the values of the front, then the last element's. */
  lemma CompactMapLast<S(!new), T(!new)>(s: seq<S>, f: S -> Option<T>)
    requires s != []
    ensures CompactMap(s, f) == CompactMap(s[..|s| - 1], f) + (match f(s[|s| - 1]) case Some(y) => [y] case None => [])
  {
  }

  /** A value is kept exactly when `f` yields it for some element. */
  lemma {:induction false} CompactMapMembers<S(!new), T(!new)>(s: seq<S>, f: S -> Option<T>)
    ensures forall y :: y in CompactMap(s, f) <==> exists i :: 0 <= i < |s| && f(s[i]) == Some(y)
    decreases |s|
  {
    if s != [] {
      var front := s[..|s| - 1];
      CompactMapLast(s, f);
      CompactMapMembers(front, f);
      forall y
        ensures y in CompactMap(s, f) <==> exists i :: 0 <= i < |s| && f(s[i]) == Some(y)
      {
        if y in CompactMap(s, f) && y !in CompactMap(front, f) {
          assert f(s[|s| - 1]) == Some(y);
        }
        if exists i :: 0 <= i < |s| && f(s[i]) == Some(y) {
          var i :| 0 <= i < |s| && f(s[i]) == Some(y);
          if i < |front| {
            assert f(front[i]) == Some(y);
          }
        }
      }
    }
  }

  lemma SeqAssociative<T>(x: seq<T>, y: seq<T>, z: seq<T>)
    ensures (x + y) + z == x + (y + z)
  {
  }

  /** `compactMap` keeps the input order: it distributes over concatenation. */
  lemma {:induction false} CompactMapAppend<S(!new), T(!new)>(a: seq<S>, b: seq<S>, f: S -> Option<T>)
    ensures CompactMap(a + b, f) == CompactMap(a, f) + CompactMap(b, f)
    decreases |b|
  {
    if b == [] {
      assert a + b == a;
    } else {
      var front := b[..|b| - 1];
      var tail := match f(b[|b| - 1]) case Some(y) => [y] case None => [];
      assert (a + b)[..|a + b| - 1] == a + front;
      assert (a + b)[|a + b| - 1] == b[|b| - 1];
      CompactMapLast(a + b, f);
      CompactMapLast(b, f);
      CompactMapAppend(a, front, f);
      var x, y := CompactMap(a, f), CompactMap(front, f);
      SeqAssociative(x, y, tail);
    }
  }

  /**
    What `sorted(by: before)` demands of `before`: it is asymmetric, and
    "does not come before" is transitive.
   */
  ghost predicate StrictWeakOrder<T(!new)>(before: (T, T) -> bool)
  {
    && (forall a, b :: before(a, b) ==> !before(b, a))
    && (forall a, b, c :: !before(b, a) && !before(c, b) ==> !before(c, a))
  }

  /** No element comes before one that precedes it. */
  ghost predicate SortedBy<T>(s: seq<T>, before: (T, T) -> bool)
  {
    forall i, j :: 0 <= i < j < |s| ==> !before(s[j], s[i])
  }

  /** Places `x` ahead of the first element of `s` that does not come before it. */
  function Insert<T(==)>(x: T, s: seq<T>, before: (T, T) -> bool): (r: seq<T>)
    ensures multiset(r) == multiset(s) + multiset{x}
    ensures forall y :: y in r ==> y == x || y in s
    decreases |s|
  {
    if s == [] then [x]
    else if before(s[0], x) then
      assert s == [s[0]] + s[1..];
      [s[0]] + Insert(x, s[1..], before)
    else [x] + s
  }

  /** `s.sorted(by: before)`. */
  function SortBy<T(==)>(s: seq<T>, before: (T, T) -> bool): (r: seq<T>)
    ensures multiset(r) == multiset(s)
    ensures |r| == |s|
    decreases |s|
  {
    if s == [] then []
    else
      assert s == [s[0]] + s[1..];
      Insert(s[0], SortBy(s[1..], before), before)
  }

  lemma {:induction false} InsertSorted<T(!new)>(x: T, s: seq<T>, before: (T, T) -> bool)
    requires StrictWeakOrder(before)
    requires SortedBy(s, before)
    ensures SortedBy(Insert(x, s, before), before)
    decreases |s|
  {
    if s != [] {
      var r := Insert(x, s, before);
      if before(s[0], x) {
        var rest := Insert(x, s[1..], before);
        InsertSorted(x, s[1..], before);
        assert r == [s[0]] + rest;
        forall j | 0 <= j < |rest|
          ensures !before(rest[j], s[0])
        {
          assert rest[j] in rest;
          if rest[j] != x {
            var k :| 0 <= k < |s[1..]| && s[1..][k] == rest[j];
            assert s[k + 1] == rest[j];
          }
        }
      } else {
        assert r == [x] + s;
        forall j | 0 <= j < |s|
          ensures !before(s[j], x)
        {
          if j > 0 {
            assert !before(s[j], s[0]);
          }
        }
      }
    }
  }

  /** Under a strict weak order, `SortBy` returns an ordered permutation of its input. */
  lemma {:induction false} SortBySorted<T(!new)>(s: seq<T>, before: (T, T) -> bool)
    requires StrictWeakOrder(before)
    ensures SortedBy(SortBy(s, before), before)
    ensures multiset(SortBy(s, before)) == multiset(s)
    decreases |s|
  {
    if s != [] {
      SortBySorted(s[1..], before);
      InsertSorted(s[0], SortBy(s[1..], before), before);
    }
  }

  /** The elements `before` puts neither ahead of `y` nor after it: `y`'s ties. */
  function Tied<T>(before: (T, T) -> bool, y: T): T -> bool
  {
    (x: T) => !before(x, y) && !before(y, x)
  }

  /**
    Inserting `x` keeps the order of the elements that pass `e`, when no two of
    them are ordered by `before`: `x` lands ahead of every one of them.
   */
  lemma {:induction false} InsertKeepsTies<T(!new)>(x: T, s: seq<T>, before: (T, T) -> bool, e: T -> bool)
    requires forall a, b :: e(a) && before(b, a) ==> !e(b)
    ensures Filter(Insert(x, s, before), e) == (if e(x) then [x] else []) + Filter(s, e)
    decreases |s|
  {
    if s == [] {
      FilterSingleton(x, e);
    } else if before(s[0], x) {
      var rest := Insert(x, s[1..], before);
      InsertKeepsTies(x, s[1..], before, e);
      assert ([s[0]] + rest)[1..] == rest;
      FilterFirst([s[0]] + rest, e);
      FilterFirst(s, e);
    } else {
      FilterAppend([x], s, e);
      FilterSingleton(x, e);
    }
  }

  /**
    `sorted(by:)` is stable: the elements tied with any `y` appear in the sorted
    sequence in the order they had in the input.
   */
  lemma {:induction false} SortByStable<T(!new)>(s: seq<T>, before: (T, T) -> bool, y: T)
    requires StrictWeakOrder(before)
    ensures Filter(SortBy(s, before), Tied(before, y)) == Filter(s, Tied(before, y))
    decreases |s|
  {
    if s != [] {
      var e := Tied(before, y);
      forall a, b | e(a) && before(b, a)
        ensures !e(b)
      {
      }
      SortByStable(s[1..], before, y);
      InsertKeepsTies(s[0], SortBy(s[1..], before), before, e);
      FilterFirst(s, e);
    }
  }
}
