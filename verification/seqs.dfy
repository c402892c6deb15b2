/** Sequence helpers standing in for the Python list idioms the encoder uses:
    `range`, nested list comprehensions, first-seen dictionary insertion and
    filtered comprehensions. */
module Seqs {

  /** No element occurs twice. */
  predicate Distinct<T(==)>(s: seq<T>) {
    forall i, j | 0 <= i < j < |s| :: s[i] != s[j]
  }

  /** Python's `range(lo, hi)`. */
  function Range(lo: nat, hi: nat): (r: seq<nat>)
    ensures |r| == if lo <= hi then hi - lo else 0
    ensures forall j | 0 <= j < |r| :: r[j] == lo + j
    ensures forall x :: x in r <==> lo <= x < hi
    decreases hi - lo
  {
    if lo >= hi then [] else [lo] + Range(lo + 1, hi)
  }

  lemma RangeDistinct(lo: nat, hi: nat)
    ensures Distinct(Range(lo, hi))
  {
  }

  /** A concatenation is duplicate-free when both halves are and they share nothing. */
  lemma DistinctConcat<T>(a: seq<T>, b: seq<T>)
    requires Distinct(a) && Distinct(b)
    requires forall x | x in a :: x !in b
    ensures Distinct(a + b)
  {
    forall i, j | 0 <= i < j < |a + b|
      ensures (a + b)[i] != (a + b)[j]
    {
      if j < |a| {
      } else if i < |a| {
        assert (a + b)[i] in a;
        assert (a + b)[j] == b[j - |a|];
      } else {
        assert (a + b)[i] == b[i - |a|];
      }
    }
  }

  /** In a duplicate-free sequence an element sits at one index only. */
  lemma DistinctIndex<T>(s: seq<T>, i: nat, j: nat)
    requires Distinct(s) && i < |s| && j < |s| && s[i] == s[j]
    ensures i == j
  {
  }

  /** A sequence of three items is the display of those items. Kept apart,
      like `ConcatAssoc`, so that callers with large contexts get the fact
      cheaply. */
  lemma ThreeItems<T>(s: seq<T>)
    requires |s| == 3
    ensures s == [s[0], s[1], s[2]]
  {
  }

  /** Kept apart so that callers with large contexts get the fact cheaply. */
  lemma ConcatAssoc<T>(a: seq<T>, b: seq<T>, c: seq<T>)
    ensures a + (b + c) == (a + b) + c
  {
  }

  /** The keys a Python dict ends up with when `s` is inserted, in order, into a
      dict that already holds the keys `seen`: every element not yet present is
      appended, so the result lists the distinct elements in first-seen order. */
  function FirstSeen<T(==)>(s: seq<T>, seen: seq<T>): (r: seq<T>)
    ensures |seen| <= |r| <= |seen| + |s|
    decreases |s|
  {
    if |s| == 0 then seen
    else if s[0] in seen then FirstSeen(s[1..], seen)
    else FirstSeen(s[1..], seen + [s[0]])
  }

  /** A key ends up in the dict exactly when it was there before or is inserted. */
  lemma {:induction false} FirstSeenMember<T(!new)>(s: seq<T>, seen: seq<T>)
    ensures forall x :: x in FirstSeen(s, seen) <==> x in seen || x in s
    decreases |s|
  {
    if |s| > 0 {
      assert forall x :: x in s <==> x == s[0] || x in s[1..];
      if s[0] in seen {
        FirstSeenMember(s[1..], seen);
      } else {
        FirstSeenMember(s[1..], seen + [s[0]]);
      }
    }
  }

  /** No key is listed twice. */
  lemma {:induction false} FirstSeenDistinct<T>(s: seq<T>, seen: seq<T>)
    requires Distinct(seen)
    ensures Distinct(FirstSeen(s, seen))
    decreases |s|
  {
    if |s| > 0 {
      if s[0] in seen {
        FirstSeenDistinct(s[1..], seen);
      } else {
        assert Distinct(seen + [s[0]]);
        FirstSeenDistinct(s[1..], seen + [s[0]]);
      }
    }
  }

  /** A nested list comprehension `[b for a in s for b in f(a)]`. */
  function FlatMap<A(!new), B(!new)>(s: seq<A>, f: A --> seq<B>): (r: seq<B>)
    requires forall a | a in s :: f.requires(a)
  {
    if |s| == 0 then []
    else
      assert forall a | a in s[1..] :: a in s;
      f(s[0]) + FlatMap(s[1..], f)
  }

  /** An item is produced exactly when some element's generator yields it. */
  lemma {:induction false} FlatMapMember<A(!new), B(!new)>(s: seq<A>, f: A --> seq<B>)
    requires forall a | a in s :: f.requires(a)
    ensures forall b :: b in FlatMap(s, f) <==> exists a :: a in s && b in f(a)
  {
    if |s| > 0 {
      FlatMapCons(s, f);
      FlatMapMember(s[1..], f);
      assert forall a | a in s :: a == s[0] || a in s[1..];
    }
  }

  /** A comprehension over distinct generators whose images are duplicate-free
      and pairwise disjoint produces no duplicates. */
  lemma {:induction false} FlatMapDistinct<A(!new), B(!new)>(s: seq<A>, f: A --> seq<B>)
    requires forall a | a in s :: f.requires(a)
    requires Distinct(s)
    requires forall a | a in s :: Distinct(f(a))
    requires forall a, a', b | a in s && a' in s && b in f(a) && b in f(a') :: a == a'
    ensures Distinct(FlatMap(s, f))
  {
    if |s| > 0 {
      assert forall a | a in s[1..] :: a in s;
      assert Distinct(s[1..]);
      FlatMapDistinct(s[1..], f);
      FlatMapMember(s[1..], f);
      assert s[0] !in s[1..];
      forall b | b in f(s[0])
        ensures b !in FlatMap(s[1..], f)
      {
        assert forall a | a in s[1..] :: a != s[0] && b !in f(a);
      }
      DistinctConcat(f(s[0]), FlatMap(s[1..], f));
    }
  }

  /** A comprehension whose generator yields `len` items per element has
      `|s| * len` items. */
  lemma {:induction false} FlatMapLength<A(!new), B(!new)>(s: seq<A>, f: A --> seq<B>, len: nat)
    requires forall a | a in s :: f.requires(a) && |f(a)| == len
    ensures |FlatMap(s, f)| == |s| * len
  {
    if |s| > 0 {
      FlatMapCons(s, f);
      FlatMapLength(s[1..], f, len);
      assert |s| * len == len + |s[1..]| * len by {
        assert |s| == |s[1..]| + 1;
      }
    }
  }

  /** The comprehension over a non-empty sequence: the first element's
      items, then the rest. */
  lemma FlatMapCons<A(!new), B(!new)>(s: seq<A>, f: A --> seq<B>)
    requires forall a | a in s :: f.requires(a)
    requires |s| > 0
    ensures forall a | a in s[1..] :: f.requires(a)
    ensures FlatMap(s, f) == f(s[0]) + FlatMap(s[1..], f)
  {
    assert forall a | a in s[1..] :: a in s;
  }

  /** A filtered comprehension `[x for x in s if keep(x)]`. */
  function Filter<T(!new)>(s: seq<T>, keep: T -> bool): (r: seq<T>)
    ensures |r| <= |s|
    ensures forall x :: x in r <==> x in s && keep(x)
  {
    if |s| == 0 then []
    else if keep(s[0]) then [s[0]] + Filter(s[1..], keep)
    else Filter(s[1..], keep)
  }

  lemma {:induction false} FilterConcat<T(!new)>(a: seq<T>, b: seq<T>, keep: T -> bool)
    ensures Filter(a + b, keep) == Filter(a, keep) + Filter(b, keep)
  {
    if |a| == 0 {
      assert a + b == b;
    } else {
      assert (a + b)[1..] == a[1..] + b;
      FilterConcat(a[1..], b, keep);
    }
  }

  lemma {:induction false} FilterKeepsAll<T(!new)>(s: seq<T>, keep: T -> bool)
    requires forall j | 0 <= j < |s| :: keep(s[j])
    ensures Filter(s, keep) == s
  {
    if |s| > 0 {
      FilterKeepsAll(s[1..], keep);
      assert [s[0]] + s[1..] == s;
    }
  }

  /** The first components of a sequence of pairs, in order: the keys of a
      dict held as its entries. */
  function Firsts<A, B>(s: seq<(A, B)>): (r: seq<A>)
    ensures |r| == |s|
    ensures forall j | 0 <= j < |s| :: r[j] == s[j].0
  {
    seq(|s|, j requires 0 <= j < |s| => s[j].0)
  }

  lemma FirstsCons<A, B>(x: (A, B), rest: seq<(A, B)>)
    ensures Firsts([x] + rest) == [x.0] + Firsts(rest)
  {
  }

  /** Python's `sum(s)`. */
  function Sum(s: seq<int>): int {
    if |s| == 0 then 0 else s[0] + Sum(s[1..])
  }

  lemma {:induction false} SumConcat(a: seq<int>, b: seq<int>)
    ensures Sum(a + b) == Sum(a) + Sum(b)
  {
    if |a| == 0 {
      assert a + b == b;
    } else {
      assert (a + b)[1..] == a[1..] + b;
      SumConcat(a[1..], b);
    }
  }
}
