/** Coalitions of criteria as the MaxSAT encoder enumerates them
    (Inv-NCS/maxsat.py lines 48-51): every `itertools.combinations(range(n), i)`
    for `i` in `0..n`, each an increasing tuple of criterion indices, plus the
    complement a consistency clause refers to (line 117). */
module Coalitions {
  import opened Seqs

  /** Strictly increasing, as every tuple `combinations` yields over a range. */
  predicate Increasing(c: seq<nat>) {
    forall i, j | 0 <= i < j < |c| :: c[i] < c[j]
  }

  predicate Within(c: seq<nat>, lo: nat, hi: nat) {
    forall j | 0 <= j < |c| :: lo <= c[j] < hi
  }

  /** A coalition over `n` criteria: an increasing tuple of indices below `n`. */
  predicate IsCoalition(c: seq<nat>, n: nat) {
    Increasing(c) && Within(c, 0, n)
  }

  function Elems(c: seq<nat>): set<nat> {
    set x | x in c
  }

  /** `set(B).issubset(set(Bp)) and set(B) != set(Bp)`. */
  predicate StrictSubset(b: seq<nat>, bp: seq<nat>) {
    Elems(b) < Elems(bp)
  }

  /** `[[x] + c for c in cs]`. */
  function Prepend(x: nat, cs: seq<seq<nat>>): (r: seq<seq<nat>>)
    ensures |r| == |cs|
    ensures forall j | 0 <= j < |r| :: r[j] == [x] + cs[j]
  {
    seq(|cs|, j requires 0 <= j < |cs| => [x] + cs[j])
  }

  /** `combinations(range(lo, hi), k)`, in the lexicographic order itertools
      emits: first every tuple starting with `lo`, then those that skip it. */
  function Combinations(lo: nat, hi: nat, k: nat): seq<seq<nat>>
    decreases hi - lo, k
  {
    if k == 0 then [[]]
    else if lo >= hi then []
    else Prepend(lo, Combinations(lo + 1, hi, k - 1)) + Combinations(lo + 1, hi, k)
  }

  /** The tuples of size `k` are exactly the increasing `k`-tuples drawn from `lo..hi-1`. */
  lemma CombinationsMember(lo: nat, hi: nat, k: nat, c: seq<nat>)
    ensures c in Combinations(lo, hi, k) <==> |c| == k && Increasing(c) && Within(c, lo, hi)
  {
    if c in Combinations(lo, hi, k) {
      CombinationsSound(lo, hi, k, c);
    }
    if |c| == k && Increasing(c) && Within(c, lo, hi) {
      CombinationsComplete(lo, hi, k, c);
    }
  }

  /** The tuples starting with `lo`, then those that skip it. */
  lemma CombinationsSplit(lo: nat, hi: nat, k: nat, c: seq<nat>)
    requires k > 0 && lo < hi
    ensures c in Combinations(lo, hi, k) <==>
            c in Prepend(lo, Combinations(lo + 1, hi, k - 1)) || c in Combinations(lo + 1, hi, k)
  {
  }

  lemma {:induction false} CombinationsSound(lo: nat, hi: nat, k: nat, c: seq<nat>)
    requires c in Combinations(lo, hi, k)
    ensures |c| == k && Increasing(c) && Within(c, lo, hi)
    decreases hi - lo, k, 1
  {
    if k > 0 {
      CombinationsSplit(lo, hi, k, c);
      if c in Combinations(lo + 1, hi, k) {
        CombinationsSound(lo + 1, hi, k, c);
      } else {
        SoundWithHead(lo, hi, k, c);
      }
    }
  }

  /** A tuple from the first block is `lo` followed by a shorter tuple. */
  lemma {:induction false} SoundWithHead(lo: nat, hi: nat, k: nat, c: seq<nat>)
    requires k > 0 && lo < hi && c in Prepend(lo, Combinations(lo + 1, hi, k - 1))
    ensures |c| == k && Increasing(c) && Within(c, lo, hi)
    decreases hi - lo, k, 0
  {
    var sub := Combinations(lo + 1, hi, k - 1);
    var j :| 0 <= j < |sub| && Prepend(lo, sub)[j] == c;
    CombinationsSound(lo + 1, hi, k - 1, sub[j]);
    PrependedWithin(lo, hi, sub[j]);
  }

  /** `lo` followed by an increasing tuple above it is increasing. */
  lemma PrependedWithin(lo: nat, hi: nat, t: seq<nat>)
    requires Increasing(t) && Within(t, lo + 1, hi) && lo < hi
    ensures Increasing([lo] + t) && Within([lo] + t, lo, hi)
  {
    var c := [lo] + t;
    forall i, j | 0 <= i < j < |c|
      ensures c[i] < c[j]
    {
      assert c[j] == t[j - 1];
      if i > 0 {
        assert c[i] == t[i - 1];
      }
    }
  }

  lemma PrependMember(x: nat, cs: seq<seq<nat>>, t: seq<nat>)
    requires t in cs
    ensures [x] + t in Prepend(x, cs)
  {
    var j :| 0 <= j < |cs| && cs[j] == t;
    assert Prepend(x, cs)[j] == [x] + t;
  }

  lemma {:induction false} CombinationsComplete(lo: nat, hi: nat, k: nat, c: seq<nat>)
    requires |c| == k && Increasing(c) && Within(c, lo, hi)
    ensures c in Combinations(lo, hi, k)
    decreases hi - lo, k, 1
  {
    if k > 0 {
      assert lo <= c[0] < hi;
      CombinationsSplit(lo, hi, k, c);
      if c[0] == lo {
        CompleteWithHead(lo, hi, k, c);
      } else {
        SkipWithin(c, lo, hi);
        CombinationsComplete(lo + 1, hi, k, c);
      }
    }
  }

  /** A tuple starting with `lo` is in the first block. */
  lemma {:induction false} CompleteWithHead(lo: nat, hi: nat, k: nat, c: seq<nat>)
    requires k > 0 && |c| == k && Increasing(c) && Within(c, lo, hi) && c[0] == lo
    ensures c in Prepend(lo, Combinations(lo + 1, hi, k - 1))
    decreases hi - lo, k, 0
  {
    TailWithin(c, lo, hi);
    CombinationsComplete(lo + 1, hi, k - 1, c[1..]);
    PrependMember(lo, Combinations(lo + 1, hi, k - 1), c[1..]);
    assert c == [lo] + c[1..];
  }

  /** The tail of an increasing tuple lies above its head. */
  lemma TailWithin(c: seq<nat>, lo: nat, hi: nat)
    requires |c| > 0 && Increasing(c) && Within(c, lo, hi) && c[0] == lo
    ensures Increasing(c[1..]) && Within(c[1..], lo + 1, hi)
  {
    var t := c[1..];
    forall i, j | 0 <= i < j < |t|
      ensures t[i] < t[j]
    {
      assert t[i] == c[i + 1] && t[j] == c[j + 1];
    }
    forall j | 0 <= j < |t|
      ensures lo + 1 <= t[j] < hi
    {
      assert t[j] == c[j + 1] && c[0] < c[j + 1];
    }
  }

  /** An increasing tuple that does not start at `lo` avoids `lo`. */
  lemma SkipWithin(c: seq<nat>, lo: nat, hi: nat)
    requires |c| > 0 && Increasing(c) && Within(c, lo, hi) && c[0] != lo
    ensures Within(c, lo + 1, hi)
  {
    forall j | 0 <= j < |c|
      ensures lo + 1 <= c[j] < hi
    {
      assert j == 0 || c[0] < c[j];
    }
  }

  /** `combinations` never yields the same tuple twice. */
  lemma {:induction false} CombinationsDistinct(lo: nat, hi: nat, k: nat)
    ensures Distinct(Combinations(lo, hi, k))
    decreases hi - lo, k
  {
    if k > 0 && lo < hi {
      var sub := Combinations(lo + 1, hi, k - 1);
      var first := Prepend(lo, sub);
      var rest := Combinations(lo + 1, hi, k);
      CombinationsDistinct(lo + 1, hi, k - 1);
      CombinationsDistinct(lo + 1, hi, k);
      forall i, j | 0 <= i < j < |first|
        ensures first[i] != first[j]
      {
        assert first[i][1..] == sub[i] && first[j][1..] == sub[j];
      }
      forall c | c in first
        ensures c !in rest
      {
        CombinationsMember(lo + 1, hi, k, c);
        assert c[0] == lo;
      }
      DistinctConcat(first, rest);
    }
  }

  /** An increasing tuple of indices below `n` has at most `n` entries. */
  lemma {:induction false} IncreasingLength(c: seq<nat>, n: nat)
    requires IsCoalition(c, n)
    ensures |c| <= n
  {
    if |c| > 0 {
      var k := |c| - 1;
      forall j | 0 <= j < |c|
        ensures c[j] >= j
      {
        IncreasingFrom(c, j);
      }
      assert c[k] >= k;
    }
  }

  lemma {:induction false} IncreasingFrom(c: seq<nat>, j: nat)
    requires Increasing(c) && j < |c|
    ensures c[j] >= j
  {
    if j > 0 {
      IncreasingFrom(c, j - 1);
    }
  }

  /** `criteria_combinations`: the combinations of each size `0..n` of `range(n)`,
      smaller sizes first. */
  function AllCoalitions(n: nat): (r: seq<seq<nat>>)
    ensures forall c | c in r :: IsCoalition(c, n)
  {
    var r := FlatMap(Range(0, n + 1), (k: nat) => Combinations(0, n, k));
    FlatMapMember(Range(0, n + 1), (k: nat) => Combinations(0, n, k));
    forall c | c in r
      ensures IsCoalition(c, n)
    {
      var k :| k in Range(0, n + 1) && c in Combinations(0, n, k);
      CombinationsMember(0, n, k, c);
    }
    r
  }

  /** The enumeration holds every coalition over `n` criteria and nothing else. */
  lemma AllCoalitionsMember(n: nat, c: seq<nat>)
    ensures c in AllCoalitions(n) <==> IsCoalition(c, n)
  {
    FlatMapMember(Range(0, n + 1), (k: nat) => Combinations(0, n, k));
    CombinationsMember(0, n, |c|, c);
    if IsCoalition(c, n) {
      IncreasingLength(c, n);
      assert |c| in Range(0, n + 1);
    }
    if c in AllCoalitions(n) {
      var k :| k in Range(0, n + 1) && c in Combinations(0, n, k);
      CombinationsMember(0, n, k, c);
    }
  }

  /** The enumeration lists no coalition twice, so each gets its own variables. */
  lemma AllCoalitionsDistinct(n: nat)
    ensures Distinct(AllCoalitions(n))
  {
    var f := (k: nat) => Combinations(0, n, k);
    forall k | k in Range(0, n + 1)
      ensures Distinct(f(k))
    {
      CombinationsDistinct(0, n, k);
    }
    forall k, k', c | k in Range(0, n + 1) && k' in Range(0, n + 1) && c in f(k) && c in f(k')
      ensures k == k'
    {
      CombinationsMember(0, n, k, c);
      CombinationsMember(0, n, k', c);
    }
    RangeDistinct(0, n + 1);
    FlatMapDistinct(Range(0, n + 1), f);
  }

  lemma {:induction false} FilterIncreasing(s: seq<nat>, keep: nat -> bool)
    requires Increasing(s)
    ensures Increasing(Filter(s, keep))
  {
    if |s| > 0 {
      FilterIncreasing(s[1..], keep);
      var r := Filter(s[1..], keep);
      forall j | 0 <= j < |r|
        ensures s[0] < r[j]
      {
        assert r[j] in s[1..];
      }
    }
  }

  /** `tuple([i for i in criteria if i not in B])`, the complementary coalition. */
  function Complement(n: nat, b: seq<nat>): (r: seq<nat>)
    ensures forall i: nat :: i in r <==> i < n && i !in b
    ensures IsCoalition(r, n)
  {
    var keep := (i: nat) => i !in b;
    var r := Filter(Range(0, n), keep);
    FilterIncreasing(Range(0, n), keep);
    forall i: nat
      ensures i in r <==> i < n && i !in b
    {
      assert keep(i) == (i !in b);
    }
    assert forall j | 0 <= j < |r| :: r[j] in r;
    r
  }

  /** The complement of a coalition is itself a key of the enumeration, so the
      lookup `y[B_comp, h]` never fails. */
  lemma ComplementEnumerated(n: nat, b: seq<nat>)
    ensures Complement(n, b) in AllCoalitions(n)
  {
    AllCoalitionsMember(n, Complement(n, b));
  }
}
