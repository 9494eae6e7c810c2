/** Option and Result, and the sequence helpers every component uses
    (JavaScript's `filter`, `slice(0, n)`, `reduce` with `+`). */
module Common {

  /** A value that may be absent (`undefined` in the source). */
  datatype Option<T> = None | Some(value: T)

  /** Either a value or a reason why none was produced. */
  datatype Result<T, E> = Ok(value: T) | Err(error: E)

  /** `s.filter(p)`: the elements satisfying `p`, in their original order. */
  function Filter<T(!new)>(s: seq<T>, p: T -> bool): (r: seq<T>)
    ensures |r| <= |s|
    ensures forall x :: x in r <==> x in s && p(x)
    ensures forall i :: 0 <= i < |r| ==> p(r[i])
  {
    if |s| == 0 then []
    else
      if p(s[0]) then [s[0]] + Filter(s[1..], p) else Filter(s[1..], p)
  }

  /** `s.filter(p).length`. */
  function Count<T(!new)>(s: seq<T>, p: T -> bool): nat
  {
    |Filter(s, p)|
  }

  lemma {:induction false} FilterAppend<T(!new)>(a: seq<T>, b: seq<T>, p: T -> bool)
    ensures Filter(a + b, p) == Filter(a, p) + Filter(b, p)
  {
    if |a| == 0 {
      assert a + b == b;
    } else {
      assert (a + b)[1..] == a[1..] + b;
      FilterAppend(a[1..], b, p);
    }
  }

  /** Filtering keeps every element the predicate accepts and drops every other one. */
  lemma {:induction false} FilterMultiset<T(!new)>(s: seq<T>, p: T -> bool)
    ensures forall x :: multiset(Filter(s, p))[x] == if p(x) then multiset(s)[x] else 0
  {
    if |s| > 0 {
      FilterMultiset(s[1..], p);
      assert s == [s[0]] + s[1..];
    }
  }

  /** `r` is `s` read at the positions `idx`, which are exactly the positions
      whose element satisfies `p`, in increasing order. */
  ghost predicate Selects<T>(r: seq<T>, s: seq<T>, p: T -> bool, idx: seq<nat>)
  {
    && |idx| == |r|
    && (forall k :: 0 <= k < |idx| ==> idx[k] < |s| && r[k] == s[idx[k]])
    && (forall k, l :: 0 <= k < l < |idx| ==> idx[k] < idx[l])
    && (forall i :: 0 <= i < |s| ==> (p(s[i]) <==> i in idx))
  }

  /** Filtering keeps exactly the accepted elements, in their original order. */
  lemma {:induction false} FilterSelects<T(!new)>(s: seq<T>, p: T -> bool)
    ensures exists idx :: Selects(Filter(s, p), s, p, idx)
  {
    if |s| == 0 {
      assert Selects(Filter(s, p), s, p, []);
    } else {
      FilterSelects(s[1..], p);
      var rest :| Selects(Filter(s[1..], p), s[1..], p, rest);
      var idx := SelectsStep(s, p, rest);
    }
  }

  /** Every position moved one further on. */
  function Shift(idx: seq<nat>): (r: seq<nat>)
    ensures |r| == |idx|
    ensures forall k :: 0 <= k < |r| ==> r[k] == idx[k] + 1
  {
    seq(|idx|, k requires 0 <= k < |idx| => idx[k] + 1)
  }

  /** The positions selected from `s` follow from those selected from its tail. */
  lemma SelectsStep<T(!new)>(s: seq<T>, p: T -> bool, rest: seq<nat>) returns (idx: seq<nat>)
    requires |s| > 0 && Selects(Filter(s[1..], p), s[1..], p, rest)
    ensures Selects(Filter(s, p), s, p, idx)
  {
    var shifted := Shift(rest);
    var tail := Filter(s[1..], p);
    assert Filter(s, p) == (if p(s[0]) then [s[0]] else []) + tail;
    forall i | 1 <= i < |s|
      ensures (p(s[i]) <==> i in shifted)
    {
      assert s[i] == s[1..][i - 1];
      ShiftIn(rest, i);
    }
    forall k | 0 <= k < |shifted|
      ensures 1 <= shifted[k] < |s| && tail[k] == s[shifted[k]]
    {
      assert tail[k] == s[1..][rest[k]];
    }
    if p(s[0]) {
      idx := SelectsFirst(s, p, tail, shifted);
    } else {
      idx := shifted;
      SelectsSkip(s, p, tail, shifted);
    }
  }

  /** Skipping a rejected first element. */
  lemma SelectsSkip<T>(s: seq<T>, p: T -> bool, tail: seq<T>, shifted: seq<nat>)
    requires |s| > 0 && !p(s[0])
    requires |shifted| == |tail|
    requires forall k :: 0 <= k < |shifted| ==> 1 <= shifted[k] < |s| && tail[k] == s[shifted[k]]
    requires forall k, l :: 0 <= k < l < |shifted| ==> shifted[k] < shifted[l]
    requires forall i :: 1 <= i < |s| ==> (p(s[i]) <==> i in shifted)
    ensures Selects(tail, s, p, shifted)
  {
  }

  /** A position is in the shifted list exactly when the one before it is in the original. */
  lemma ShiftIn(idx: seq<nat>, i: nat)
    requires i >= 1
    ensures i in Shift(idx) <==> i - 1 in idx
  {
    if i - 1 in idx {
      var k :| 0 <= k < |idx| && idx[k] == i - 1;
      assert Shift(idx)[k] == i;
    }
  }

  /** Prepending an accepted first element and its position 0. */
  lemma SelectsFirst<T>(s: seq<T>, p: T -> bool, tail: seq<T>, shifted: seq<nat>) returns (idx: seq<nat>)
    requires |s| > 0 && p(s[0])
    requires |shifted| == |tail|
    requires forall k :: 0 <= k < |shifted| ==> 1 <= shifted[k] < |s| && tail[k] == s[shifted[k]]
    requires forall k, l :: 0 <= k < l < |shifted| ==> shifted[k] < shifted[l]
    requires forall i :: 1 <= i < |s| ==> (p(s[i]) <==> i in shifted)
    ensures Selects([s[0]] + tail, s, p, idx)
  {
    idx := [0] + shifted;
    var r := [s[0]] + tail;
    forall k | 1 <= k < |idx|
      ensures idx[k] == shifted[k - 1] && r[k] == tail[k - 1]
    {
    }
    forall i | 0 <= i < |s|
      ensures p(s[i]) <==> i in idx
    {
      if i > 0 {
        if i in shifted {
          var k :| 0 <= k < |shifted| && shifted[k] == i;
          assert idx[k + 1] == i;
        }
      }
    }
  }

  /** The positions of `s` whose element `p` accepts. */
  ghost function Positions<T>(s: seq<T>, p: T -> bool): set<nat>
  {
    set i: nat | i < |s| && p(s[i])
  }

  /** The number of elements `p` accepts is the number of positions it accepts. */
  lemma {:induction false} CountPositions<T(!new)>(s: seq<T>, p: T -> bool)
    ensures Count(s, p) == |Positions(s, p)|
  {
    if |s| > 0 {
      var n := |s| - 1;
      CountPositions(s[..n], p);
      CountLast(s, p);
      PositionsLast(s, p);
    }
  }

  lemma CountLast<T(!new)>(s: seq<T>, p: T -> bool)
    requires |s| > 0
    ensures Count(s, p) == Count(s[..|s| - 1], p) + if p(s[|s| - 1]) then 1 else 0
  {
    var n := |s| - 1;
    assert s == s[..n] + [s[n]];
    FilterAppend(s[..n], [s[n]], p);
    assert Filter([s[n]], p) == (if p(s[n]) then [s[n]] else []) + Filter([s[n]][1..], p);
  }

  lemma PositionsLast<T>(s: seq<T>, p: T -> bool)
    requires |s| > 0
    ensures |Positions(s, p)| == |Positions(s[..|s| - 1], p)| + if p(s[|s| - 1]) then 1 else 0
  {
    var n := |s| - 1;
    var before, after := Positions(s[..n], p), Positions(s, p);
    var last: set<nat> := if p(s[n]) then {n} else {};
    forall i: nat
      ensures i in after <==> i in before + last
    {
      if i < n {
        assert s[..n][i] == s[i];
      }
    }
    assert after == before + last;
    assert n !in before;
  }

  /** Filtering only drops elements. */
  lemma FilterSubMultiset<T(!new)>(s: seq<T>, p: T -> bool)
    ensures multiset(Filter(s, p)) <= multiset(s)
  {
    FilterMultiset(s, p);
  }

  /** Filtering a sequence of which every element satisfies the predicate changes nothing. */
  lemma {:induction false} FilterAll<T(!new)>(s: seq<T>, p: T -> bool)
    requires forall i :: 0 <= i < |s| ==> p(s[i])
    ensures Filter(s, p) == s
  {
    if |s| > 0 {
      FilterAll(s[1..], p);
    }
  }

  /** Filtering a sequence of which no element satisfies the predicate leaves nothing. */
  lemma {:induction false} FilterNone<T(!new)>(s: seq<T>, p: T -> bool)
    requires forall i :: 0 <= i < |s| ==> !p(s[i])
    ensures Filter(s, p) == []
  {
    if |s| > 0 {
      FilterNone(s[1..], p);
    }
  }

  /** Two predicates that agree on the elements of `s` filter it alike. */
  lemma {:induction false} FilterCongruent<T(!new)>(s: seq<T>, p: T -> bool, q: T -> bool)
    requires forall i :: 0 <= i < |s| ==> p(s[i]) == q(s[i])
    ensures Filter(s, p) == Filter(s, q)
  {
    if |s| > 0 {
      FilterCongruent(s[1..], p, q);
    }
  }

  /** Filtering by `p` then by `q` is filtering by both. */
  lemma {:induction false} FilterFilter<T(!new)>(s: seq<T>, p: T -> bool, q: T -> bool, pq: T -> bool)
    requires forall x :: pq(x) == (p(x) && q(x))
    ensures Filter(Filter(s, p), q) == Filter(s, pq)
  {
    if |s| > 0 {
      FilterFilter(s[1..], p, q, pq);
    }
  }

  /** If position by position `b` satisfies `p` wherever `a` does, `b` has at least as many such elements. */
  lemma {:induction false} CountMonotone<T(!new)>(a: seq<T>, b: seq<T>, p: T -> bool)
    requires |a| == |b|
    requires forall i :: 0 <= i < |a| && p(a[i]) ==> p(b[i])
    ensures Count(a, p) <= Count(b, p)
  {
    if |a| > 0 {
      CountMonotone(a[1..], b[1..], p);
    }
  }

  /** `s.slice(0, n)` for n >= 0. */
  function Take<T>(s: seq<T>, n: nat): (r: seq<T>)
    ensures |r| == if n < |s| then n else |s|
    ensures forall i :: 0 <= i < |r| ==> r[i] == s[i]
  {
    if n < |s| then s[..n] else s
  }

  /** `s.reduce((sum, x) => sum + f(x), 0)`. */
  function Sum<T>(s: seq<T>, f: T -> int): int
  {
    if |s| == 0 then 0 else f(s[0]) + Sum(s[1..], f)
  }

  lemma {:induction false} SumAppend<T>(a: seq<T>, b: seq<T>, f: T -> int)
    ensures Sum(a + b, f) == Sum(a, f) + Sum(b, f)
  {
    if |a| == 0 {
      assert a + b == b;
    } else {
      assert (a + b)[1..] == a[1..] + b;
      SumAppend(a[1..], b, f);
    }
  }

  /** Reordering a sequence does not change its sum. */
  lemma {:induction false} SumPermutation<T>(a: seq<T>, b: seq<T>, f: T -> int)
    requires multiset(a) == multiset(b)
    ensures Sum(a, f) == Sum(b, f)
  {
    if |a| == 0 {
      assert |b| == |multiset(b)| == 0;
    } else {
      assert a[0] in multiset(b);
      var i :| 0 <= i < |b| && b[i] == a[0];
      var rest := b[..i] + b[i + 1..];
      RemoveAt(a, b, i);
      SumPermutation(a[1..], rest, f);
      SumRemoveAt(b, i, f);
    }
  }

  /** Dropping the same element from two permutations of each other leaves permutations. */
  lemma RemoveAt<T>(a: seq<T>, b: seq<T>, i: nat)
    requires multiset(a) == multiset(b)
    requires |a| > 0 && i < |b| && b[i] == a[0]
    ensures multiset(a[1..]) == multiset(b[..i] + b[i + 1..])
  {
    assert b == b[..i] + [b[i]] + b[i + 1..];
    assert multiset(b) == multiset(b[..i]) + multiset{b[i]} + multiset(b[i + 1..]);
    assert a == [a[0]] + a[1..];
    assert multiset(a[1..]) == multiset(a) - multiset{a[0]};
  }

  /** The sum of `b` is its i-th term plus the sum of the rest. */
  lemma SumRemoveAt<T>(b: seq<T>, i: nat, f: T -> int)
    requires i < |b|
    ensures Sum(b, f) == f(b[i]) + Sum(b[..i] + b[i + 1..], f)
  {
    var p, x, q := b[..i], b[i], b[i + 1..];
    assert b[..i + 1] == p + [x];
    assert b == b[..i + 1] + q;
    SumAppend(p + [x], q, f);
    SumAppend(p, [x], f);
    SumAppend(p, q, f);
    assert Sum([x], f) == f(x) + Sum([x][1..], f);
    assert [x][1..] == [];
  }

  /** Sums of two functions that agree on the elements of `s` are equal. */
  lemma {:induction false} SumCongruent<T>(s: seq<T>, f: T -> int, g: T -> int)
    requires forall i :: 0 <= i < |s| ==> f(s[i]) == g(s[i])
    ensures Sum(s, f) == Sum(s, g)
  {
    if |s| > 0 {
      SumCongruent(s[1..], f, g);
    }
  }

  /** The sum of a pointwise sum is the sum of the sums. */
  lemma {:induction false} SumAdd<T>(s: seq<T>, f: T -> int, g: T -> int, h: T -> int)
    requires forall i :: 0 <= i < |s| ==> h(s[i]) == f(s[i]) + g(s[i])
    ensures Sum(s, h) == Sum(s, f) + Sum(s, g)
  {
    if |s| > 0 {
      SumAdd(s[1..], f, g, h);
    }
  }

  /** In a sequence without repeats, `x` is counted once if it occurs and not at all otherwise. */
  lemma {:induction false} SumIndicator<T>(s: seq<T>, x: T, f: T -> int)
    requires Distinct(s)
    requires forall i :: 0 <= i < |s| ==> f(s[i]) == if s[i] == x then 1 else 0
    ensures Sum(s, f) == if x in s then 1 else 0
  {
    if |s| > 0 {
      SumIndicator(s[1..], x, f);
      if s[0] == x {
        assert x !in s[1..] by {
          forall k | 1 <= k < |s|
            ensures s[k] != x
          {
            assert s[0] != s[k];
          }
        }
      }
    }
  }

  /** The values `f` produces for the elements of `s`, the element at position
      k paired with the index `first + k`, skipping the elements it produces
      nothing for: a loop over `s` that `continue`s past them. */
  function Collect<A, T>(s: seq<A>, first: nat, f: (A, nat) -> Option<T>): (r: seq<T>)
    ensures |r| <= |s|
  {
    if |s| == 0 then []
    else
      var p := f(s[0], first);
      (if p.Some? then [p.value] else []) + Collect(s[1..], first + 1, f)
  }

  /** Whatever property every produced value has, every collected value has. */
  lemma {:induction false} CollectKeeps<A, T>(s: seq<A>, first: nat, f: (A, nat) -> Option<T>, ok: T -> bool)
    requires forall a, i :: f(a, i).Some? ==> ok(f(a, i).value)
    ensures forall k :: 0 <= k < |Collect(s, first, f)| ==> ok(Collect(s, first, f)[k])
  {
    if |s| > 0 {
      CollectKeeps(s[1..], first + 1, f, ok);
    }
  }

  /** `f` produces `out[k]` for the element at position k, indexed `first + k`. */
  ghost predicate ProducesAll<A, T>(s: seq<A>, first: nat, f: (A, nat) -> Option<T>, out: seq<T>)
  {
    |out| == |s| && forall k :: 0 <= k < |s| ==> f(s[k], first + k) == Some(out[k])
  }

  /** When `f` produces `out[k]` for every element, nothing is skipped and the result is `out`. */
  lemma {:induction false} CollectAll<A, T>(s: seq<A>, first: nat, f: (A, nat) -> Option<T>, out: seq<T>)
    requires ProducesAll(s, first, f, out)
    ensures Collect(s, first, f) == out
  {
    if |s| > 0 {
      assert f(s[0], first) == Some(out[0]);
      CollectAll(s[1..], first + 1, f, out[1..]);
    }
  }

  /** The position of the first element satisfying `p` (JavaScript's `find`). */
  function FindFirst<T>(s: seq<T>, p: T -> bool): (r: Option<nat>)
    ensures r.None? <==> forall i :: 0 <= i < |s| ==> !p(s[i])
    ensures r.Some? ==> r.value < |s| && p(s[r.value]) && forall i :: 0 <= i < r.value ==> !p(s[i])
  {
    if |s| == 0 then None
    else if p(s[0]) then Some(0)
    else match FindFirst(s[1..], p)
      case None => None
      case Some(i) => Some(i + 1)
  }

  /** No two sequence entries are equal. */
  ghost predicate Distinct<T>(s: seq<T>)
  {
    forall a, b :: 0 <= a < b < |s| ==> s[a] != s[b]
  }

  /** The distinct elements of `s`, in first-occurrence order (`[...new Set(s)]`). */
  function Dedup<T(==,!new)>(s: seq<T>): (r: seq<T>)
    ensures forall x :: x in r <==> x in s
    ensures forall a, b :: 0 <= a < b < |r| ==> r[a] != r[b]
  {
    if |s| == 0 then []
    else
      var rest := Dedup(s[..|s| - 1]);
      if s[|s| - 1] in rest then rest else rest + [s[|s| - 1]]
  }

  /** A permutation of a sequence without repeats has no repeats. */
  lemma DistinctPermutation<T>(d: seq<T>, r: seq<T>, a: nat, b: nat)
    requires forall x, y :: 0 <= x < y < |d| ==> d[x] != d[y]
    requires multiset(r) == multiset(d)
    requires a < b < |r|
    ensures r[a] != r[b]
  {
    if r[a] == r[b] {
      assert r == r[..a] + [r[a]] + r[a + 1..b] + [r[b]] + r[b + 1..];
      assert multiset(r)[r[a]] >= 2;
      CountAtMostOne(d, r[a]);
    }
  }

  lemma {:induction false} CountAtMostOne<T>(d: seq<T>, x: T)
    requires forall a, b :: 0 <= a < b < |d| ==> d[a] != d[b]
    ensures multiset(d)[x] <= 1
  {
    if |d| > 0 {
      CountAtMostOne(d[1..], x);
      assert d == [d[0]] + d[1..];
      if d[0] == x {
        assert x !in d[1..];
      }
    }
  }
}
