/** The data-generation side of Inverse NCS (Inv-NCS/data_generator.py):
    the parameter validator `parse_from_dict` and the NCS decision rule `ncs`
    that labels every generated instance. Marks and profile thresholds are
    exact reals; criteria and coalition members are Python integers, used
    as indices into the marks and the profiles (a negative index counts from
    the end, as numpy and Python lists do). */
module NcsRule {
  import opened Wrappers
  import opened Seqs

  // ---------------------------------------------------------------------------
  // parse_from_dict

  datatype Params = Params(
    criteria: seq<int>,
    coalitions: seq<seq<int>>,
    profiles: seq<seq<real>>,
    generated: int)  // `n_generated`

  /** The failing `assert` of `parse_from_dict`, with the 0-based position it
      names (the messages print positions from 1). */
  datatype ParamError =
    | NoCriteria
    | NothingGenerated
    | ProfileLength(profile: nat)
    | ProfileDecreases(profile: nat, criterion: nat)
    | NotSubset(coalition: nat)
    | EmptyCoalition(coalition: nat)
    | RepeatedCriterion(coalition: nat)

  /** Every profile has one threshold per criterion. */
  predicate ProfilesShaped(profiles: seq<seq<real>>, n: nat) {
    forall h | 0 <= h < |profiles| :: |profiles[h]| == n
  }

  /** No threshold decreases from profile `h - 1` to profile `h`. */
  predicate NoDrop(profiles: seq<seq<real>>, n: nat, h: nat)
    requires ProfilesShaped(profiles, n) && 1 <= h < |profiles|
  {
    forall i | 0 <= i < n :: profiles[h - 1][i] <= profiles[h][i]
  }

  /** No threshold decreases from one profile to the next. */
  predicate ProfilesNested(profiles: seq<seq<real>>, n: nat)
    requires ProfilesShaped(profiles, n)
  {
    forall h | 1 <= h < |profiles| :: NoDrop(profiles, n, h)
  }

  /** A coalition names criteria only, at least one, none twice. */
  predicate CoalitionOk(c: seq<int>, criteria: seq<int>) {
    (forall j | 0 <= j < |c| :: c[j] in criteria) && |c| > 0 && Distinct(c)
  }

  /** The parameters every `assert` of `parse_from_dict` accepts. */
  predicate Valid(p: Params) {
    |p.criteria| > 0 && p.generated > 0 &&
    ProfilesShaped(p.profiles, |p.criteria|) &&
    ProfilesNested(p.profiles, |p.criteria|) &&
    forall k | 0 <= k < |p.coalitions| :: CoalitionOk(p.coalitions[k], p.criteria)
  }

  /** The first profile, from position `from` on, whose length is not `n`. */
  function WrongLength(profiles: seq<seq<real>>, n: nat, from: nat): (r: Option<nat>)
    requires from <= |profiles|
    ensures r.None? <==> forall h | from <= h < |profiles| :: |profiles[h]| == n
    ensures r.Some? ==>
              from <= r.value < |profiles| && |profiles[r.value]| != n &&
              forall h | from <= h < r.value :: |profiles[h]| == n
    decreases |profiles| - from
  {
    if from == |profiles| then None
    else if |profiles[from]| != n then Some(from)
    else WrongLength(profiles, n, from + 1)
  }

  /** The first criterion, from `from` on, whose threshold drops between
      profile `h - 1` and profile `h`. */
  function DropAt(profiles: seq<seq<real>>, n: nat, h: nat, from: nat): (r: Option<nat>)
    requires ProfilesShaped(profiles, n) && 1 <= h < |profiles| && from <= n
    ensures r.None? <==> forall i | from <= i < n :: profiles[h - 1][i] <= profiles[h][i]
    ensures r.Some? ==>
              from <= r.value < n && profiles[h][r.value] < profiles[h - 1][r.value] &&
              forall i | from <= i < r.value :: profiles[h - 1][i] <= profiles[h][i]
    decreases n - from
  {
    if from == n then None
    else if profiles[h][from] < profiles[h - 1][from] then Some(from)
    else DropAt(profiles, n, h, from + 1)
  }

  /** The first drop in the loop order `for h in range(1, p) / for i in range(n)`,
      looking at profiles `from` onwards. */
  function FirstDrop(profiles: seq<seq<real>>, n: nat, from: nat): (r: Option<(nat, nat)>)
    requires ProfilesShaped(profiles, n) && 1 <= from
    ensures r.None? <==> forall h | from <= h < |profiles| :: NoDrop(profiles, n, h)
    ensures r.Some? ==>
              var (h, i) := r.value;
              from <= h < |profiles| && i < n && profiles[h][i] < profiles[h - 1][i] &&
              (forall h' | from <= h' < h :: NoDrop(profiles, n, h')) &&
              (forall i' | 0 <= i' < i :: profiles[h - 1][i'] <= profiles[h][i'])
    decreases |profiles| - from
  {
    if from >= |profiles| then None
    else
      var d := DropAt(profiles, n, from, 0);
      if d.Some? then
        assert !NoDrop(profiles, n, from);
        Some((from, d.value))
      else FirstDrop(profiles, n, from + 1)
  }

  /** The checks of the `for coalition in coalitions` loop, from position
      `from` on: the subset test, then emptiness, then repetition. */
  function BadCoalition(coalitions: seq<seq<int>>, criteria: seq<int>, from: nat): (r: Option<ParamError>)
    requires from <= |coalitions|
    ensures r.None? <==> forall k | from <= k < |coalitions| :: CoalitionOk(coalitions[k], criteria)
    ensures r.Some? ==> r.value.NotSubset? || r.value.EmptyCoalition? || r.value.RepeatedCriterion?
    decreases |coalitions| - from
  {
    if from == |coalitions| then None
    else
      var c := coalitions[from];
      if !((set x | x in c) <= (set x | x in criteria)) then
        SubsetMembers(c, criteria);
        Some(NotSubset(from))
      else if |c| == 0 then Some(EmptyCoalition(from))
      else if |c| != |set x | x in c| then
        assert !Distinct(c) by {
          if Distinct(c) {
            DistinctCardinality(c);
          }
        }
        Some(RepeatedCriterion(from))
      else
        assert Distinct(c) by {
          DistinctCardinality(c);
        }
        SubsetMembers(c, criteria);
        BadCoalition(coalitions, criteria, from + 1)
  }

  /** `set(c).issubset(set(criteria))` exactly when every member of `c` is
      a criterion. */
  lemma SubsetMembers(c: seq<int>, criteria: seq<int>)
    ensures (set x | x in c) <= (set x | x in criteria) <==> forall j | 0 <= j < |c| :: c[j] in criteria
  {
    var sc, scr := set x | x in c, set x | x in criteria;
    if sc <= scr {
      forall j | 0 <= j < |c| ensures c[j] in criteria {
        assert c[j] in sc;
      }
    }
    if forall j | 0 <= j < |c| :: c[j] in criteria {
      forall x | x in sc ensures x in scr {
        var j :| 0 <= j < |c| && c[j] == x;
      }
    }
  }

  /** `len(c) == len(set(c))` exactly when `c` repeats nothing. */
  lemma {:induction false} DistinctCardinality(c: seq<int>)
    ensures Distinct(c) <==> |c| == |set x | x in c|
  {
    if |c| > 0 {
      var t := c[1..];
      DistinctCardinality(t);
      assert (set x | x in c) == {c[0]} + (set x | x in t);
      if c[0] in t {
        var j :| 0 <= j < |t| && t[j] == c[0];
        assert c[0] == c[j + 1];
        SetCardinalityBound(t);
      } else {
        if Distinct(t) {
          forall i, j | 0 <= i < j < |c| ensures c[i] != c[j] {
            if i > 0 {
              assert c[i] == t[i - 1] && c[j] == t[j - 1];
            } else {
              assert c[j] == t[j - 1];
            }
          }
        }
        if Distinct(c) {
          forall i, j | 0 <= i < j < |t| ensures t[i] != t[j] {
            assert t[i] == c[i + 1] && t[j] == c[j + 1];
          }
        }
      }
    }
  }

  /** A sequence has at least as many positions as distinct elements. */
  lemma {:induction false} SetCardinalityBound(c: seq<int>)
    ensures |set x | x in c| <= |c|
  {
    if |c| > 0 {
      SetCardinalityBound(c[1..]);
      assert (set x | x in c) == {c[0]} + (set x | x in c[1..]);
    }
  }

  /** `parse_from_dict`: the parameters themselves when every check passes,
      otherwise the first failing check in the order the function makes them. */
  function ParseFromDict(p: Params): (r: Result<Params, ParamError>)
    ensures r.Success? <==> Valid(p)
    ensures r.Success? ==> r.value == p
    ensures r == Failure(NoCriteria) <==> |p.criteria| == 0
    ensures r == Failure(NothingGenerated) <==> |p.criteria| > 0 && p.generated <= 0
    ensures r.Failure? && r.error.ProfileLength? ==>
              var h := r.error.profile;
              h < |p.profiles| && |p.profiles[h]| != |p.criteria| &&
              forall h' | 0 <= h' < h :: |p.profiles[h']| == |p.criteria|
    ensures r.Failure? && r.error.ProfileDecreases? ==>
              var (h, i) := (r.error.profile, r.error.criterion);
              ProfilesShaped(p.profiles, |p.criteria|) &&
              1 <= h < |p.profiles| && i < |p.criteria| && p.profiles[h][i] < p.profiles[h - 1][i] &&
              (forall h' | 1 <= h' < h :: NoDrop(p.profiles, |p.criteria|, h')) &&
              (forall i' | 0 <= i' < i :: p.profiles[h - 1][i'] <= p.profiles[h][i'])
    ensures r.Failure? && (r.error.NotSubset? || r.error.EmptyCoalition? || r.error.RepeatedCriterion?) ==>
              ProfilesShaped(p.profiles, |p.criteria|) && ProfilesNested(p.profiles, |p.criteria|) &&
              r.error.coalition < |p.coalitions| &&
              forall k | 0 <= k < r.error.coalition :: CoalitionOk(p.coalitions[k], p.criteria)
    ensures r.Failure? && r.error.NotSubset? ==>
              r.error.coalition < |p.coalitions| &&
              exists j | 0 <= j < |p.coalitions[r.error.coalition]| :: p.coalitions[r.error.coalition][j] !in p.criteria
    ensures r.Failure? && r.error.EmptyCoalition? ==>
              r.error.coalition < |p.coalitions| && |p.coalitions[r.error.coalition]| == 0
    ensures r.Failure? && r.error.RepeatedCriterion? ==>
              var k := r.error.coalition;
              k < |p.coalitions| && |p.coalitions[k]| > 0 && !Distinct(p.coalitions[k]) &&
              forall j | 0 <= j < |p.coalitions[k]| :: p.coalitions[k][j] in p.criteria
  {
    var n := |p.criteria|;
    if n == 0 then Failure(NoCriteria)
    else if p.generated <= 0 then Failure(NothingGenerated)
    else
      var wrong := WrongLength(p.profiles, n, 0);
      if wrong.Some? then Failure(ProfileLength(wrong.value))
      else
        var drop := FirstDrop(p.profiles, n, 1);
        if drop.Some? then Failure(ProfileDecreases(drop.value.0, drop.value.1))
        else
          var bad := BadCoalition(p.coalitions, p.criteria, 0);
          if bad.Some? then
            BlamedCoalition(p.coalitions, p.criteria, 0);
            Failure(bad.value)
          else Success(p)
  }

  /** The coalition the validator blames really breaks a rule, and the
      coalitions before it are fine. */
  lemma BlamedCoalition(coalitions: seq<seq<int>>, criteria: seq<int>, from: nat)
    requires from <= |coalitions| && BadCoalition(coalitions, criteria, from).Some?
    ensures var e := BadCoalition(coalitions, criteria, from).value;
            match e
            case NotSubset(k) =>
              from <= k < |coalitions| && (exists j | 0 <= j < |coalitions[k]| :: coalitions[k][j] !in criteria) &&
              forall k' | from <= k' < k :: CoalitionOk(coalitions[k'], criteria)
            case EmptyCoalition(k) =>
              from <= k < |coalitions| && |coalitions[k]| == 0 &&
              forall k' | from <= k' < k :: CoalitionOk(coalitions[k'], criteria)
            case RepeatedCriterion(k) =>
              from <= k < |coalitions| && |coalitions[k]| > 0 && !Distinct(coalitions[k]) &&
              (forall j | 0 <= j < |coalitions[k]| :: coalitions[k][j] in criteria) &&
              forall k' | from <= k' < k :: CoalitionOk(coalitions[k'], criteria)
            case _ => false
    decreases |coalitions| - from
  {
    var c := coalitions[from];
    SubsetMembers(c, criteria);
    if !((set x | x in c) <= (set x | x in criteria)) {
    } else if |c| == 0 {
    } else if |c| != |set x | x in c| {
      DistinctCardinality(c);
    } else {
      DistinctCardinality(c);
      BlamedCoalition(coalitions, criteria, from + 1);
    }
  }

  // ---------------------------------------------------------------------------
  // ncs

  /** Python's `s[i]` for `-|s| <= i < |s|`. */
  function At(s: seq<real>, i: int): real
    requires -|s| <= i < |s|
  {
    if i < 0 then s[|s| + i] else s[i]
  }

  /** Every coalition member is a usable index into the marks. */
  predicate Members(marks: seq<real>, coalitions: seq<seq<int>>) {
    forall k, j | 0 <= k < |coalitions| && 0 <= j < |coalitions[k]| :: -|marks| <= coalitions[k][j] < |marks|
  }

  /** The inputs the model of `ncs` accepts: every coalition member indexes
      the marks, and every profile is as long as the marks. Under these every
      read `ncs` may make is in range. */
  predicate Indexed(marks: seq<real>, coalitions: seq<seq<int>>, profiles: seq<seq<real>>) {
    Members(marks, coalitions) && forall h | 0 <= h < |profiles| :: |profiles[h]| == |marks|
  }

  /** `any(marks[i] < profile[i] for i in coalition)`: the coalition fails
      against the profile. */
  predicate Fails(marks: seq<real>, profile: seq<real>, c: seq<int>)
    requires |profile| == |marks| && forall j | 0 <= j < |c| :: -|marks| <= c[j] < |marks|
  {
    exists j | 0 <= j < |c| :: At(marks, c[j]) < At(profile, c[j])
  }

  /** Every criterion of the coalition is at or above the profile. */
  predicate Clears(marks: seq<real>, profile: seq<real>, c: seq<int>)
    requires |profile| == |marks| && forall j | 0 <= j < |c| :: -|marks| <= c[j] < |marks|
  {
    forall j | 0 <= j < |c| :: At(marks, c[j]) >= At(profile, c[j])
  }

  /** The instance reaches `profile`: some coalition has every one of its
      criteria at or above the profile. With no coalition at all nothing
      can fail, and every profile is reached. */
  predicate Reaches(marks: seq<real>, profile: seq<real>, coalitions: seq<seq<int>>)
    requires |profile| == |marks| && Members(marks, coalitions)
  {
    |coalitions| == 0 ||
    exists k | 0 <= k < |coalitions| :: Clears(marks, profile, coalitions[k])
  }

  /** `k` is the length of the longest prefix of profiles the instance reaches. */
  predicate ClassIs(marks: seq<real>, coalitions: seq<seq<int>>, profiles: seq<seq<real>>, k: nat)
    requires Indexed(marks, coalitions, profiles)
  {
    k <= |profiles| &&
    (forall h | 0 <= h < k :: Reaches(marks, profiles[h], coalitions)) &&
    (k < |profiles| ==> !Reaches(marks, profiles[k], coalitions))
  }

  /** `ncs`: walk the profiles in order; at each, try the coalitions in order,
      moving to the next profile at the first coalition that does not fail,
      and answering the current position when the last coalition fails too.
      A profile list that is walked to its end answers its length. An empty
      profile list leaves `h` unbound, so it is excluded. */
  method Ncs(marks: seq<real>, coalitions: seq<seq<int>>, profiles: seq<seq<real>>) returns (cls: nat)
    requires |profiles| > 0
    requires Indexed(marks, coalitions, profiles)
    ensures ClassIs(marks, coalitions, profiles, cls)
  {
    var h := 0;
    while h < |profiles|
      invariant 0 <= h <= |profiles|
      invariant forall h' | 0 <= h' < h :: Reaches(marks, profiles[h'], coalitions)
    {
      var profile := profiles[h];
      var ic := 0;
      while ic < |coalitions|
        invariant 0 <= ic <= |coalitions|
        invariant forall k | 0 <= k < ic :: Fails(marks, profile, coalitions[k])
        invariant |coalitions| > 0 ==> ic < |coalitions|
      {
        var failed := AnyBelow(marks, profile, coalitions[ic]);
        if failed {
          if ic == |coalitions| - 1 {
            assert !Reaches(marks, profile, coalitions) by {
              NoneReaches(marks, profile, coalitions);
            }
            return h;
          }
        } else {
          assert Reaches(marks, profile, coalitions) by {
            assert !Fails(marks, profile, coalitions[ic]);
          }
          break;
        }
        ic := ic + 1;
      }
      assert Reaches(marks, profile, coalitions);
      h := h + 1;
    }
    return h;
  }

  /** The lazy `any(marks[i] < profile[i] for i in coalition)`: stops at the
      first criterion below the profile. */
  method AnyBelow(marks: seq<real>, profile: seq<real>, c: seq<int>) returns (found: bool)
    requires |profile| == |marks| && forall j | 0 <= j < |c| :: -|marks| <= c[j] < |marks|
    ensures found <==> Fails(marks, profile, c)
  {
    var j := 0;
    while j < |c|
      invariant 0 <= j <= |c|
      invariant forall j' | 0 <= j' < j :: At(marks, c[j']) >= At(profile, c[j'])
    {
      if At(marks, c[j]) < At(profile, c[j]) {
        return true;
      }
      j := j + 1;
    }
    return false;
  }

  /** When every coalition fails, the profile is not reached (unless there is
      no coalition at all). */
  lemma NoneReaches(marks: seq<real>, profile: seq<real>, coalitions: seq<seq<int>>)
    requires |profile| == |marks| && Members(marks, coalitions) && |coalitions| > 0
    requires forall k | 0 <= k < |coalitions| :: Fails(marks, profile, coalitions[k])
    ensures !Reaches(marks, profile, coalitions)
  {
    forall k | 0 <= k < |coalitions|
      ensures !Clears(marks, profile, coalitions[k])
    {
      assert Fails(marks, profile, coalitions[k]);
    }
  }

  // ---------------------------------------------------------------------------
  // Properties of the rule

  /** The class is determined: at most one `k` is the length of the longest
      reached prefix. */
  lemma ClassUnique(marks: seq<real>, coalitions: seq<seq<int>>, profiles: seq<seq<real>>, k: nat, k': nat)
    requires Indexed(marks, coalitions, profiles)
    requires ClassIs(marks, coalitions, profiles, k) && ClassIs(marks, coalitions, profiles, k')
    ensures k == k'
  {
  }

  /** With no coalition every profile is reached, so the class is the number
      of profiles. */
  lemma NoCoalitions(marks: seq<real>, profiles: seq<seq<real>>, k: nat)
    requires Indexed(marks, [], profiles)
    ensures ClassIs(marks, [], profiles, k) <==> k == |profiles|
  {
  }

  /** Profiles after the first one the instance misses are never consulted:
      replacing them leaves the class unchanged. */
  lemma IgnoresLaterProfiles(marks: seq<real>, coalitions: seq<seq<int>>,
                             profiles: seq<seq<real>>, others: seq<seq<real>>, k: nat)
    requires Indexed(marks, coalitions, profiles) && Indexed(marks, coalitions, others)
    requires ClassIs(marks, coalitions, profiles, k) && k < |profiles|
    requires k < |others| && others[..k + 1] == profiles[..k + 1]
    ensures ClassIs(marks, coalitions, others, k)
  {
    forall h | 0 <= h <= k
      ensures others[h] == profiles[h]
    {
      assert others[..k + 1][h] == profiles[..k + 1][h];
    }
  }

  /** A coalition that clears a profile still clears it once a mark rises. */
  lemma ReachesMonotone(marks: seq<real>, higher: seq<real>, profile: seq<real>, coalitions: seq<seq<int>>)
    requires |higher| == |marks| && forall i | 0 <= i < |marks| :: marks[i] <= higher[i]
    requires |profile| == |marks| && Members(marks, coalitions)
    requires Reaches(marks, profile, coalitions)
    ensures Reaches(higher, profile, coalitions)
  {
    if |coalitions| > 0 {
      var k :| 0 <= k < |coalitions| && Clears(marks, profile, coalitions[k]);
      forall j | 0 <= j < |coalitions[k]|
        ensures At(higher, coalitions[k][j]) >= At(profile, coalitions[k][j])
      {
        var i := coalitions[k][j];
        assert At(marks, i) <= At(higher, i) by {
          if i < 0 {
            assert marks[|marks| + i] <= higher[|marks| + i];
          } else {
            assert marks[i] <= higher[i];
          }
        }
      }
    }
  }

  /** Raising marks never lowers the class. */
  lemma ClassMonotone(marks: seq<real>, higher: seq<real>, coalitions: seq<seq<int>>,
                      profiles: seq<seq<real>>, k: nat, k': nat)
    requires |higher| == |marks| && forall i | 0 <= i < |marks| :: marks[i] <= higher[i]
    requires Indexed(marks, coalitions, profiles)
    requires ClassIs(marks, coalitions, profiles, k) && ClassIs(higher, coalitions, profiles, k')
    ensures k <= k'
  {
    if k' < k {
      ReachesMonotone(marks, higher, profiles[k'], coalitions);
    }
  }

  /** Parameters that pass the validator, with criteria that are positions
      into the marks, can be handed to `ncs` without an index error. */
  lemma ValidatedIndexed(p: Params, marks: seq<real>)
    requires ParseFromDict(p).Success?
    requires |marks| == |p.criteria|
    requires forall j | 0 <= j < |p.criteria| :: 0 <= p.criteria[j] < |marks|
    ensures Indexed(marks, p.coalitions, p.profiles)
  {
    forall k, j | 0 <= k < |p.coalitions| && 0 <= j < |p.coalitions[k]|
      ensures -|marks| <= p.coalitions[k][j] < |marks|
    {
      assert CoalitionOk(p.coalitions[k], p.criteria);
      var x := p.coalitions[k][j];
      var m :| 0 <= m < |p.criteria| && p.criteria[m] == x;
    }
  }

  /** One singleton coalition clearing the profile is enough: marks
      `[11, 11, 9, 9]` reach the profile `[10, 10, 10, 10]` through criterion 0. */
  lemma SingletonExample()
    ensures ClassIs([11.0, 11.0, 9.0, 9.0], [[0], [1], [2], [3]], [[10.0, 10.0, 10.0, 10.0]], 1)
  {
    var marks, profile := [11.0, 11.0, 9.0, 9.0], [10.0, 10.0, 10.0, 10.0];
    var cs: seq<seq<int>> := [[0], [1], [2], [3]];
    assert forall j | 0 <= j < |cs[0]| :: At(marks, cs[0][j]) >= At(profile, cs[0][j]);
  }

  /** A coalition fails as soon as one member is below: marks `[11, 9, 9, 9]`
      miss the profile `[10, 10, 10, 10]` with the only coalition `[0, 1]`. */
  lemma PairExample()
    ensures ClassIs([11.0, 9.0, 9.0, 9.0], [[0, 1]], [[10.0, 10.0, 10.0, 10.0]], 0)
  {
    var marks, profile := [11.0, 9.0, 9.0, 9.0], [10.0, 10.0, 10.0, 10.0];
    var cs: seq<seq<int>> := [[0, 1]];
    assert At(marks, cs[0][1]) < At(profile, cs[0][1]);
  }
}
