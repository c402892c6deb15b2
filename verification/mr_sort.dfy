/** The MR-Sort decision rule (Inv-MR-Sort/instance_generation.py): an
    instance moves past a profile when the criteria whose mark reaches the
    profile carry at least `lmbda` of weight, and its class is the number of
    profiles it moves past before the first one it does not. Marks, weights,
    profiles and `lmbda` are exact reals. */
module MrSortRule {

  /** The weight of the first `n` criteria whose mark reaches the profile;
      a tie counts as reaching it. */
  function Weight(marks: seq<real>, weights: seq<real>, profile: seq<real>, n: nat): real
    requires n <= |marks| && n <= |weights| && n <= |profile|
  {
    if n == 0 then 0.0
    else Weight(marks, weights, profile, n - 1) + (if marks[n - 1] >= profile[n - 1] then weights[n - 1] else 0.0)
  }

  /** Every weight list and every profile covers every mark, so that every
      read `mr_sort` may make is in range. This is more than the source
      needs: it reads `weights[j]` only for a mark that reaches the
      threshold, and no profile after the one it stops at. */
  predicate Shaped(marks: seq<real>, weights: seq<real>, profiles: seq<seq<real>>) {
    |weights| >= |marks| && forall h | 0 <= h < |profiles| :: |profiles[h]| >= |marks|
  }

  /** The criteria that reach `profile` weigh at least `lmbda`. */
  predicate Passes(marks: seq<real>, weights: seq<real>, profile: seq<real>, lmbda: real)
    requires |weights| >= |marks| && |profile| >= |marks|
  {
    Weight(marks, weights, profile, |marks|) >= lmbda
  }

  /** `k` is the length of the longest prefix of profiles the instance passes. */
  predicate ClassIs(marks: seq<real>, weights: seq<real>, profiles: seq<seq<real>>, lmbda: real, k: nat)
    requires Shaped(marks, weights, profiles)
  {
    k <= |profiles| &&
    (forall h | 0 <= h < k :: Passes(marks, weights, profiles[h], lmbda)) &&
    (k < |profiles| ==> !Passes(marks, weights, profiles[k], lmbda))
  }

  /** `mr_sort`: sum the weights of the criteria at or above each profile in
      turn, stop at the first profile whose sum falls short of `lmbda`, and
      count the profiles passed. */
  method MrSort(marks: seq<real>, weights: seq<real>, profiles: seq<seq<real>>, lmbda: real)
    returns (cls: nat)
    requires Shaped(marks, weights, profiles)
    ensures ClassIs(marks, weights, profiles, lmbda, cls)
  {
    cls := 0;
    while cls < |profiles|
      invariant cls <= |profiles|
      invariant forall h | 0 <= h < cls :: Passes(marks, weights, profiles[h], lmbda)
    {
      var profile := profiles[cls];
      var sum := 0.0;
      var j := 0;
      while j < |marks|
        invariant j <= |marks|
        invariant sum == Weight(marks, weights, profile, j)
      {
        if marks[j] >= profile[j] {
          sum := sum + weights[j];
        }
        j := j + 1;
      }
      if sum < lmbda {
        break;
      }
      cls := cls + 1;
    }
  }

  // ---------------------------------------------------------------------------
  // Properties of the rule

  /** The class is determined by the instance and the parameters. */
  lemma ClassUnique(marks: seq<real>, weights: seq<real>, profiles: seq<seq<real>>, lmbda: real, k: nat, k': nat)
    requires Shaped(marks, weights, profiles)
    requires ClassIs(marks, weights, profiles, lmbda, k) && ClassIs(marks, weights, profiles, lmbda, k')
    ensures k == k'
  {
  }

  /** Profiles after the first one the instance fails are never consulted. */
  lemma IgnoresLaterProfiles(marks: seq<real>, weights: seq<real>, profiles: seq<seq<real>>,
                             others: seq<seq<real>>, lmbda: real, k: nat)
    requires Shaped(marks, weights, profiles) && Shaped(marks, weights, others)
    requires ClassIs(marks, weights, profiles, lmbda, k) && k < |profiles|
    requires k < |others| && others[..k + 1] == profiles[..k + 1]
    ensures ClassIs(marks, weights, others, lmbda, k)
  {
    forall h | 0 <= h <= k
      ensures others[h] == profiles[h]
    {
      assert others[..k + 1][h] == profiles[..k + 1][h];
    }
  }

  /** With non-negative weights, higher marks never carry less weight. */
  lemma {:induction false} WeightMonotone(marks: seq<real>, higher: seq<real>, weights: seq<real>,
                                          profile: seq<real>, n: nat)
    requires n <= |marks| && n <= |weights| && n <= |profile| && |higher| == |marks|
    requires forall j | 0 <= j < n :: marks[j] <= higher[j] && weights[j] >= 0.0
    ensures Weight(marks, weights, profile, n) <= Weight(higher, weights, profile, n)
  {
    if n > 0 {
      WeightMonotone(marks, higher, weights, profile, n - 1);
    }
  }

  /** With non-negative weights, raising marks never lowers the class. */
  lemma ClassMonotone(marks: seq<real>, higher: seq<real>, weights: seq<real>,
                      profiles: seq<seq<real>>, lmbda: real, k: nat, k': nat)
    requires Shaped(marks, weights, profiles) && |higher| == |marks|
    requires forall j | 0 <= j < |marks| :: marks[j] <= higher[j] && weights[j] >= 0.0
    requires ClassIs(marks, weights, profiles, lmbda, k) && ClassIs(higher, weights, profiles, lmbda, k')
    ensures k <= k'
  {
    if k' < k {
      WeightMonotone(marks, higher, weights, profiles[k'], |marks|);
    }
  }

  /** Raising one mark never lowers the class. */
  lemma RaiseOneMark(marks: seq<real>, weights: seq<real>, profiles: seq<seq<real>>, lmbda: real,
                     i: nat, m: real, k: nat, k': nat)
    requires Shaped(marks, weights, profiles) && i < |marks| && marks[i] <= m
    requires forall j | 0 <= j < |marks| :: weights[j] >= 0.0
    requires ClassIs(marks, weights, profiles, lmbda, k) && ClassIs(marks[i := m], weights, profiles, lmbda, k')
    ensures k <= k'
  {
    ClassMonotone(marks, marks[i := m], weights, profiles, lmbda, k, k');
  }

  /** Without non-negative weights the rule is not monotone: raising the mark
      of a criterion with weight `-1` loses the only profile. */
  lemma NegativeWeightExample()
    ensures ClassIs([5.0], [-1.0], [[5.0]], -0.5, 0)
    ensures ClassIs([4.0], [-1.0], [[5.0]], -0.5, 1)
  {
    assert Weight([5.0], [-1.0], [5.0], 1) == -1.0;
    assert Weight([4.0], [-1.0], [5.0], 1) == 0.0;
  }

  /** A mark equal to the profile counts: an instance sitting exactly on the
      only profile, with weights summing to `lmbda`, passes it. */
  lemma TieExample()
    ensures ClassIs([10.0, 12.0], [0.5, 0.5], [[10.0, 12.0]], 1.0, 1)
  {
    assert Weight([10.0, 12.0], [0.5, 0.5], [10.0, 12.0], 2) == 1.0;
  }

  /** No profile means class 0. */
  lemma NoProfiles(marks: seq<real>, weights: seq<real>, lmbda: real, k: nat)
    requires |weights| >= |marks|
    ensures ClassIs(marks, weights, [], lmbda, k) <==> k == 0
  {
  }
}
