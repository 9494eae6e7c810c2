/** `Array.prototype.sort` with a comparator. ECMAScript requires the sort
    to be stable, so for a consistent comparator its result is the stable
    insertion sort below. A comparator `cmp` is represented by the relation
    `lt(a, b)` that holds when `cmp(a, b) < 0`, that is, when `a` must come
    before `b`. */
module Sorting {
  import opened Common

  /** A comparator that sorts consistently: `lt` is irreflexive, transitive,
      and whatever lies strictly between two ordered values is ordered with
      at least one of them (so "neither before the other" is an equivalence). */
  ghost predicate StrictWeakOrder<T(!new)>(lt: (T, T) -> bool)
  {
    && (forall a :: !lt(a, a))
    && (forall a, b, c :: lt(a, b) && lt(b, c) ==> lt(a, c))
    && (forall a, b, c :: lt(a, c) ==> lt(a, b) || lt(b, c))
  }

  /** Neither value must come before the other: the comparator returns 0. */
  predicate Tied<T>(lt: (T, T) -> bool, a: T, b: T)
  {
    !lt(a, b) && !lt(b, a)
  }

  /** No element comes strictly before an element to its left. */
  ghost predicate Sorted<T>(s: seq<T>, lt: (T, T) -> bool)
  {
    forall i, j :: 0 <= i < j < |s| ==> !lt(s[j], s[i])
  }

  /** Places `x` after every element of `s` it does not have to precede. */
  function Insert<T>(x: T, s: seq<T>, lt: (T, T) -> bool): (r: seq<T>)
    ensures |r| == |s| + 1
    ensures multiset(r) == multiset(s) + multiset{x}
  {
    if |s| == 0 then [x]
    else if lt(x, s[0]) then [x] + s
    else
      assert s == [s[0]] + s[1..];
      [s[0]] + Insert(x, s[1..], lt)
  }

  /** The stable sort of `s` by `lt`: a permutation of `s`. */
  function SortBy<T>(s: seq<T>, lt: (T, T) -> bool): (r: seq<T>)
    ensures |r| == |s|
    ensures multiset(r) == multiset(s)
  {
    if |s| == 0 then []
    else
      assert s == s[..|s| - 1] + [s[|s| - 1]];
      Insert(s[|s| - 1], SortBy(s[..|s| - 1], lt), lt)
  }

  /** Sorting two elements swaps them exactly when the second must come first. */
  lemma SortPair<T>(x: T, y: T, lt: (T, T) -> bool)
    ensures SortBy([x, y], lt) == if lt(y, x) then [y, x] else [x, y]
  {
    assert [x, y][..1] == [x];
    assert [x][..0] == [];
  }

  /** No element of `s` has to come before `y`. */
  ghost predicate NoneBefore<T>(s: seq<T>, y: T, lt: (T, T) -> bool)
  {
    forall k :: 0 <= k < |s| ==> !lt(s[k], y)
  }

  lemma {:induction false} InsertNoneBefore<T>(x: T, s: seq<T>, y: T, lt: (T, T) -> bool)
    requires NoneBefore(s, y, lt) && !lt(x, y)
    ensures NoneBefore(Insert(x, s, lt), y, lt)
  {
    if |s| > 0 && !lt(x, s[0]) {
      InsertNoneBefore(x, s[1..], y, lt);
    }
  }

  lemma SortedCons<T>(y: T, s: seq<T>, lt: (T, T) -> bool)
    requires Sorted(s, lt) && NoneBefore(s, y, lt)
    ensures Sorted([y] + s, lt)
  {
    var r := [y] + s;
    forall i, j | 0 <= i < j < |r|
      ensures !lt(r[j], r[i])
    {
      if i == 0 {
        assert r[j] == s[j - 1];
      } else {
        assert r[i] == s[i - 1] && r[j] == s[j - 1];
      }
    }
  }

  lemma {:induction false} InsertSorted<T(!new)>(x: T, s: seq<T>, lt: (T, T) -> bool)
    requires StrictWeakOrder(lt)
    requires Sorted(s, lt)
    ensures Sorted(Insert(x, s, lt), lt)
  {
    if |s| == 0 {
    } else if lt(x, s[0]) {
      forall k | 0 <= k < |s|
        ensures !lt(s[k], x)
      {
        if k == 0 {
          assert !lt(s[0], s[0]);
        } else {
          assert !lt(s[k], s[0]);
        }
      }
      SortedCons(x, s, lt);
    } else {
      assert Sorted(s[1..], lt);
      InsertSorted(x, s[1..], lt);
      assert NoneBefore(s[1..], s[0], lt) by {
        forall k | 0 <= k < |s[1..]|
          ensures !lt(s[1..][k], s[0])
        {
          assert s[1..][k] == s[k + 1];
        }
      }
      InsertNoneBefore(x, s[1..], s[0], lt);
      SortedCons(s[0], Insert(x, s[1..], lt), lt);
    }
  }

  /** The sort produces a sorted sequence. */
  lemma {:induction false} SortBySorted<T(!new)>(s: seq<T>, lt: (T, T) -> bool)
    requires StrictWeakOrder(lt)
    ensures Sorted(SortBy(s, lt), lt)
  {
    if |s| > 0 {
      SortBySorted(s[..|s| - 1], lt);
      InsertSorted(s[|s| - 1], SortBy(s[..|s| - 1], lt), lt);
    }
  }

  /** The elements of `s` tied with `e`, in their order in `s`. */
  function TiedWith<T>(s: seq<T>, lt: (T, T) -> bool, e: T): seq<T>
  {
    if |s| == 0 then []
    else (if Tied(lt, s[0], e) then [s[0]] else []) + TiedWith(s[1..], lt, e)
  }

  lemma {:induction false} TiedWithAppend<T>(a: seq<T>, b: seq<T>, lt: (T, T) -> bool, e: T)
    ensures TiedWith(a + b, lt, e) == TiedWith(a, lt, e) + TiedWith(b, lt, e)
  {
    if |a| == 0 {
      assert a + b == b;
    } else {
      var ab := a + b;
      assert ab[0] == a[0] && ab[1..] == a[1..] + b;
      TiedWithAppend(a[1..], b, lt, e);
      var h := if Tied(lt, a[0], e) then [a[0]] else [];
      var x, y := TiedWith(a[1..], lt, e), TiedWith(b, lt, e);
      assert TiedWith(ab, lt, e) == h + (x + y);
      assert h + (x + y) == (h + x) + y;
    }
  }

  /** In a sorted sequence, whatever must precede the head precedes every element. */
  lemma PrecedesAll<T(!new)>(x: T, s: seq<T>, lt: (T, T) -> bool)
    requires StrictWeakOrder(lt)
    requires Sorted(s, lt)
    requires |s| > 0 && lt(x, s[0])
    ensures forall k :: 0 <= k < |s| ==> lt(x, s[k])
  {
    forall k | 0 <= k < |s|
      ensures lt(x, s[k])
    {
      if k > 0 {
        assert !lt(s[k], s[0]);
      }
    }
  }

  /** If `x` precedes every element of `s` and is tied with `e`, no element of `s` is tied with `e`. */
  lemma {:induction false} NoneTied<T(!new)>(x: T, s: seq<T>, lt: (T, T) -> bool, e: T)
    requires StrictWeakOrder(lt)
    requires forall k :: 0 <= k < |s| ==> lt(x, s[k])
    requires Tied(lt, x, e)
    ensures TiedWith(s, lt, e) == []
  {
    if |s| > 0 {
      assert lt(x, s[0]);
      assert lt(x, e) || lt(e, s[0]);
      assert !Tied(lt, s[0], e);
      NoneTied(x, s[1..], lt, e);
    }
  }

  lemma {:induction false} InsertTiedWith<T(!new)>(x: T, s: seq<T>, lt: (T, T) -> bool, e: T)
    requires StrictWeakOrder(lt)
    requires Sorted(s, lt)
    ensures TiedWith(Insert(x, s, lt), lt, e) == TiedWith(s, lt, e) + (if Tied(lt, x, e) then [x] else [])
  {
    if |s| == 0 {
    } else if lt(x, s[0]) {
      assert Insert(x, s, lt) == [x] + s;
      assert ([x] + s)[1..] == s;
      if Tied(lt, x, e) {
        PrecedesAll(x, s, lt);
        NoneTied(x, s, lt, e);
      }
    } else {
      assert Sorted(s[1..], lt);
      InsertTiedWith(x, s[1..], lt, e);
      assert Insert(x, s, lt)[1..] == Insert(x, s[1..], lt);
    }
  }

  /** Stability: elements the comparator ties keep their relative order. */
  lemma {:induction false} SortByStable<T(!new)>(s: seq<T>, lt: (T, T) -> bool, e: T)
    requires StrictWeakOrder(lt)
    ensures TiedWith(SortBy(s, lt), lt, e) == TiedWith(s, lt, e)
  {
    if |s| > 0 {
      var init, x := s[..|s| - 1], s[|s| - 1];
      assert s == init + [x];
      assert SortBy(s, lt) == Insert(x, SortBy(init, lt), lt);
      SortByStable(init, lt, e);
      SortBySorted(init, lt);
      InsertTiedWith(x, SortBy(init, lt), lt, e);
      TiedWithAppend(init, [x], lt, e);
    }
  }
}
