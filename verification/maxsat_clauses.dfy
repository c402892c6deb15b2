/** The clauses of the MaxSAT relaxation of Inv-NCS (Inv-NCS/maxsat.py lines
    75-127), built over the symbolic variables of `MaxSatVars` and numbered
    through `v2i` only when written out. Each family is listed in the order
    of the Python comprehension that builds it, and each comes with a lemma
    saying which property of an assignment its clauses enforce. */
module MaxSatClauses {
  import opened Seqs
  import opened Coalitions
  import opened Dataset
  import opened MaxSatVars
  import opened Formula

  /** `[c] if cond else []`: the filter of a comprehension. */
  function When(cond: bool, c: Clause<Prop>): seq<Clause<Prop>> {
    if cond then [c] else []
  }

  lemma WhenImplies(a: Prop -> bool, cond: bool, p: Prop, q: Prop)
    ensures SatisfiesAll(a, When(cond, Implies(p, q))) <==> (cond ==> (a(p) ==> a(q)))
  {
    ImpliesHolds(a, p, q);
  }

  // ---------------------------------------------------------------------------
  // c1: a mark that validates a criterion is beaten by every higher mark.

  function C1Mark(d: Data, h: nat, i: nat, k: real): seq<Clause<Prop>>
    requires WellFormed(d) && i < d.n
  {
    FlatMap(Column(d, i), (kp: real) => When(k < kp, Implies(X(i, h, k), X(i, h, kp))))
  }

  function C1Crit(d: Data, h: nat, i: nat): seq<Clause<Prop>>
    requires WellFormed(d) && i < d.n
  {
    FlatMap(Column(d, i), (k: real) => C1Mark(d, h, i, k))
  }

  function C1Level(d: Data, h: nat): seq<Clause<Prop>>
    requires WellFormed(d)
  {
    FlatMap(Range(0, d.n), (i: nat) requires WellFormed(d) && i < d.n => C1Crit(d, h, i))
  }

  /** `clauses_c1`: `x[i,h,k] -> x[i,h,k']` for observed marks `k < k'`,
      looping over levels, criteria, `k`, then `k'`. */
  function C1(d: Data): seq<Clause<Prop>>
    requires WellFormed(d)
  {
    FlatMap(Levels(d), (h: nat) => C1Level(d, h))
  }

  /** Validation is upward closed in the mark: whoever validates criterion `i`
      at level `h` with mark `k` also does so with any higher observed mark. */
  predicate MarksUpward(d: Data, a: Prop -> bool)
    requires WellFormed(d)
  {
    forall h, i: nat | h in Levels(d) && i < d.n :: MarksUpwardAt(d, a, h, i)
  }

  predicate MarksUpwardAt(d: Data, a: Prop -> bool, h: nat, i: nat)
    requires WellFormed(d) && i < d.n
  {
    forall k, kp | k in Column(d, i) && kp in Column(d, i) && k < kp :: a(X(i, h, k)) ==> a(X(i, h, kp))
  }

  lemma C1MarkHolds(d: Data, a: Prop -> bool, h: nat, i: nat, k: real)
    requires WellFormed(d) && i < d.n
    ensures SatisfiesAll(a, C1Mark(d, h, i, k)) <==>
              forall kp | kp in Column(d, i) && k < kp :: a(X(i, h, k)) ==> a(X(i, h, kp))
  {
    SatisfiesAllFlatMap(a, Column(d, i), (kp: real) => When(k < kp, Implies(X(i, h, k), X(i, h, kp))));
    forall kp | kp in Column(d, i)
      ensures SatisfiesAll(a, When(k < kp, Implies(X(i, h, k), X(i, h, kp)))) <==>
                (k < kp ==> (a(X(i, h, k)) ==> a(X(i, h, kp))))
    {
      WhenImplies(a, k < kp, X(i, h, k), X(i, h, kp));
    }
  }

  lemma C1CritHolds(d: Data, a: Prop -> bool, h: nat, i: nat)
    requires WellFormed(d) && i < d.n
    ensures SatisfiesAll(a, C1Crit(d, h, i)) <==> MarksUpwardAt(d, a, h, i)
  {
    SatisfiesAllFlatMap(a, Column(d, i), (k: real) => C1Mark(d, h, i, k));
    forall k | k in Column(d, i) {
      C1MarkHolds(d, a, h, i, k);
    }
  }

  lemma C1LevelHolds(d: Data, a: Prop -> bool, h: nat)
    requires WellFormed(d)
    ensures SatisfiesAll(a, C1Level(d, h)) <==> forall i: nat | i < d.n :: MarksUpwardAt(d, a, h, i)
  {
    SatisfiesAllFlatMap(a, Range(0, d.n), (i: nat) requires WellFormed(d) && i < d.n => C1Crit(d, h, i));
    forall i | i in Range(0, d.n)
      ensures SatisfiesAll(a, C1Crit(d, h, i)) <==> MarksUpwardAt(d, a, h, i)
    {
      C1CritHolds(d, a, h, i);
    }
  }

  /** The c1 clauses hold exactly when validation is upward closed in the mark. */
  lemma C1Holds(d: Data, a: Prop -> bool)
    requires WellFormed(d)
    ensures SatisfiesAll(a, C1(d)) <==> MarksUpward(d, a)
  {
    SatisfiesAllFlatMap(a, Levels(d), (h: nat) => C1Level(d, h));
    forall h | h in Levels(d) {
      C1LevelHolds(d, a, h);
    }
  }

  // ---------------------------------------------------------------------------
  // c2: validating at a higher level implies validating at every lower one.

  function C2Levels(d: Data, i: nat, k: real, h: nat): seq<Clause<Prop>>
    requires WellFormed(d)
  {
    FlatMap(Levels(d), (hp: nat) => When(h < hp, Implies(X(i, hp, k), X(i, h, k))))
  }

  function C2Mark(d: Data, i: nat, k: real): seq<Clause<Prop>>
    requires WellFormed(d)
  {
    FlatMap(Levels(d), (h: nat) => C2Levels(d, i, k, h))
  }

  function C2Crit(d: Data, i: nat): seq<Clause<Prop>>
    requires WellFormed(d) && i < d.n
  {
    FlatMap(Column(d, i), (k: real) => C2Mark(d, i, k))
  }

  /** `clauses_c2`: `x[i,h',k] -> x[i,h,k]` for levels `h < h'`, looping over
      criteria, observed marks, `h`, then `h'`. */
  function C2(d: Data): seq<Clause<Prop>>
    requires WellFormed(d)
  {
    FlatMap(Range(0, d.n), (i: nat) requires WellFormed(d) && i < d.n => C2Crit(d, i))
  }

  /** Profiles are nested: a mark that validates a criterion at level `h'`
      validates it at every lower level. */
  predicate LevelsNested(d: Data, a: Prop -> bool)
    requires WellFormed(d)
  {
    forall i: nat, k, h, hp | i < d.n && k in Column(d, i) && h in Levels(d) && hp in Levels(d) && h < hp ::
      a(X(i, hp, k)) ==> a(X(i, h, k))
  }

  lemma C2LevelsHolds(d: Data, a: Prop -> bool, i: nat, k: real, h: nat)
    requires WellFormed(d)
    ensures SatisfiesAll(a, C2Levels(d, i, k, h)) <==>
              forall hp | hp in Levels(d) && h < hp :: a(X(i, hp, k)) ==> a(X(i, h, k))
  {
    SatisfiesAllFlatMap(a, Levels(d), (hp: nat) => When(h < hp, Implies(X(i, hp, k), X(i, h, k))));
    forall hp | hp in Levels(d)
      ensures SatisfiesAll(a, When(h < hp, Implies(X(i, hp, k), X(i, h, k)))) <==>
                (h < hp ==> (a(X(i, hp, k)) ==> a(X(i, h, k))))
    {
      WhenImplies(a, h < hp, X(i, hp, k), X(i, h, k));
    }
  }

  lemma C2MarkHolds(d: Data, a: Prop -> bool, i: nat, k: real)
    requires WellFormed(d)
    ensures SatisfiesAll(a, C2Mark(d, i, k)) <==>
              forall h, hp | h in Levels(d) && hp in Levels(d) && h < hp :: a(X(i, hp, k)) ==> a(X(i, h, k))
  {
    SatisfiesAllFlatMap(a, Levels(d), (h: nat) => C2Levels(d, i, k, h));
    forall h | h in Levels(d) {
      C2LevelsHolds(d, a, i, k, h);
    }
  }

  /** The levels are nested on criterion `i`. */
  predicate CritNested(d: Data, a: Prop -> bool, i: nat)
    requires WellFormed(d) && i < d.n
  {
    forall k, h, hp | k in Column(d, i) && h in Levels(d) && hp in Levels(d) && h < hp ::
      a(X(i, hp, k)) ==> a(X(i, h, k))
  }

  lemma NestedByCriterion(d: Data, a: Prop -> bool)
    requires WellFormed(d)
    ensures LevelsNested(d, a) <==> forall i: nat | i < d.n :: CritNested(d, a, i)
  {
    if forall i: nat | i < d.n :: CritNested(d, a, i) {
      forall i: nat, k, h, hp | i < d.n && k in Column(d, i) && h in Levels(d) && hp in Levels(d) && h < hp
        ensures a(X(i, hp, k)) ==> a(X(i, h, k))
      {
        assert CritNested(d, a, i);
      }
    }
  }

  lemma C2CritHolds(d: Data, a: Prop -> bool, i: nat)
    requires WellFormed(d) && i < d.n
    ensures SatisfiesAll(a, C2Crit(d, i)) <==> CritNested(d, a, i)
  {
    SatisfiesAllFlatMap(a, Column(d, i), (k: real) => C2Mark(d, i, k));
    forall k | k in Column(d, i) {
      C2MarkHolds(d, a, i, k);
    }
  }

  /** The c2 clauses hold exactly when the levels are nested. */
  lemma C2Holds(d: Data, a: Prop -> bool)
    requires WellFormed(d)
    ensures SatisfiesAll(a, C2(d)) <==> LevelsNested(d, a)
  {
    SatisfiesAllFlatMap(a, Range(0, d.n), (i: nat) requires WellFormed(d) && i < d.n => C2Crit(d, i));
    forall i | i in Range(0, d.n)
      ensures SatisfiesAll(a, C2Crit(d, i)) <==> CritNested(d, a, i)
    {
      C2CritHolds(d, a, i);
    }
    NestedByCriterion(d, a);
  }

  // ---------------------------------------------------------------------------
  // c3: a coalition containing a sufficient coalition is sufficient.

  function C3Coalition(d: Data, h: nat, b: seq<nat>): seq<Clause<Prop>>
    requires WellFormed(d)
  {
    FlatMap(AllCoalitions(d.n), (bp: seq<nat>) => When(StrictSubset(b, bp), Implies(Y(b, h), Y(bp, h))))
  }

  function C3Level(d: Data, h: nat): seq<Clause<Prop>>
    requires WellFormed(d)
  {
    FlatMap(AllCoalitions(d.n), (b: seq<nat>) => C3Coalition(d, h, b))
  }

  /** `clauses_c3`: `y[B,h] -> y[B',h]` for `B` a strict subset of `B'`,
      looping over levels, `B`, then `B'`. */
  function C3(d: Data): seq<Clause<Prop>>
    requires WellFormed(d)
  {
    FlatMap(Levels(d), (h: nat) => C3Level(d, h))
  }

  /** Sufficiency is upward closed under inclusion of coalitions. */
  predicate CoalitionsUpward(d: Data, a: Prop -> bool)
    requires WellFormed(d)
  {
    forall h, b, bp | h in Levels(d) && b in AllCoalitions(d.n) && bp in AllCoalitions(d.n) && StrictSubset(b, bp) ::
      a(Y(b, h)) ==> a(Y(bp, h))
  }

  lemma C3CoalitionHolds(d: Data, a: Prop -> bool, h: nat, b: seq<nat>)
    requires WellFormed(d)
    ensures SatisfiesAll(a, C3Coalition(d, h, b)) <==>
              forall bp | bp in AllCoalitions(d.n) && StrictSubset(b, bp) :: a(Y(b, h)) ==> a(Y(bp, h))
  {
    SatisfiesAllFlatMap(a, AllCoalitions(d.n), (bp: seq<nat>) => When(StrictSubset(b, bp), Implies(Y(b, h), Y(bp, h))));
    forall bp | bp in AllCoalitions(d.n)
      ensures SatisfiesAll(a, When(StrictSubset(b, bp), Implies(Y(b, h), Y(bp, h)))) <==>
                (StrictSubset(b, bp) ==> (a(Y(b, h)) ==> a(Y(bp, h))))
    {
      WhenImplies(a, StrictSubset(b, bp), Y(b, h), Y(bp, h));
    }
  }

  lemma C3LevelHolds(d: Data, a: Prop -> bool, h: nat)
    requires WellFormed(d)
    ensures SatisfiesAll(a, C3Level(d, h)) <==>
              forall b, bp | b in AllCoalitions(d.n) && bp in AllCoalitions(d.n) && StrictSubset(b, bp) ::
                a(Y(b, h)) ==> a(Y(bp, h))
  {
    SatisfiesAllFlatMap(a, AllCoalitions(d.n), (b: seq<nat>) => C3Coalition(d, h, b));
    forall b | b in AllCoalitions(d.n) {
      C3CoalitionHolds(d, a, h, b);
    }
  }

  /** The c3 clauses hold exactly when sufficiency is upward closed. */
  lemma C3Holds(d: Data, a: Prop -> bool)
    requires WellFormed(d)
    ensures SatisfiesAll(a, C3(d)) <==> CoalitionsUpward(d, a)
  {
    SatisfiesAllFlatMap(a, Levels(d), (h: nat) => C3Level(d, h));
    forall h | h in Levels(d) {
      C3LevelHolds(d, a, h);
    }
  }

  // ---------------------------------------------------------------------------
  // c4: a coalition sufficient at a level is sufficient at every lower one.

  function C4Levels(d: Data, b: seq<nat>, h: nat): seq<Clause<Prop>>
    requires WellFormed(d)
  {
    FlatMap(Levels(d), (hp: nat) => When(h < hp, Implies(Y(b, hp), Y(b, h))))
  }

  function C4Coalition(d: Data, b: seq<nat>): seq<Clause<Prop>>
    requires WellFormed(d)
  {
    FlatMap(Levels(d), (h: nat) => C4Levels(d, b, h))
  }

  /** `clauses_c4`: `y[B,h'] -> y[B,h]` for `h < h'`, looping over
      coalitions, `h`, then `h'`. */
  function C4(d: Data): seq<Clause<Prop>>
    requires WellFormed(d)
  {
    FlatMap(AllCoalitions(d.n), (b: seq<nat>) => C4Coalition(d, b))
  }

  /** Sufficiency is downward closed in the level. */
  predicate SufficiencyNested(d: Data, a: Prop -> bool)
    requires WellFormed(d)
  {
    forall b, h, hp | b in AllCoalitions(d.n) && h in Levels(d) && hp in Levels(d) && h < hp ::
      a(Y(b, hp)) ==> a(Y(b, h))
  }

  lemma C4LevelsHolds(d: Data, a: Prop -> bool, b: seq<nat>, h: nat)
    requires WellFormed(d)
    ensures SatisfiesAll(a, C4Levels(d, b, h)) <==>
              forall hp | hp in Levels(d) && h < hp :: a(Y(b, hp)) ==> a(Y(b, h))
  {
    SatisfiesAllFlatMap(a, Levels(d), (hp: nat) => When(h < hp, Implies(Y(b, hp), Y(b, h))));
    forall hp | hp in Levels(d)
      ensures SatisfiesAll(a, When(h < hp, Implies(Y(b, hp), Y(b, h)))) <==>
                (h < hp ==> (a(Y(b, hp)) ==> a(Y(b, h))))
    {
      WhenImplies(a, h < hp, Y(b, hp), Y(b, h));
    }
  }

  lemma C4CoalitionHolds(d: Data, a: Prop -> bool, b: seq<nat>)
    requires WellFormed(d)
    ensures SatisfiesAll(a, C4Coalition(d, b)) <==>
              forall h, hp | h in Levels(d) && hp in Levels(d) && h < hp :: a(Y(b, hp)) ==> a(Y(b, h))
  {
    SatisfiesAllFlatMap(a, Levels(d), (h: nat) => C4Levels(d, b, h));
    forall h | h in Levels(d) {
      C4LevelsHolds(d, a, b, h);
    }
  }

  /** The c4 clauses hold exactly when sufficiency is downward closed in the level. */
  lemma C4Holds(d: Data, a: Prop -> bool)
    requires WellFormed(d)
    ensures SatisfiesAll(a, C4(d)) <==> SufficiencyNested(d, a)
  {
    SatisfiesAllFlatMap(a, AllCoalitions(d.n), (b: seq<nat>) => C4Coalition(d, b));
    forall b | b in AllCoalitions(d.n) {
      C4CoalitionHolds(d, a, b);
    }
  }

  // ---------------------------------------------------------------------------
  // c5 and c6: consistency of the coalitions with the classified instances.

  /** Under `a`, instance `u` validates every criterion of `b` at level `h`
      with its own marks. */
  predicate Validates(d: Data, a: Prop -> bool, h: nat, b: seq<nat>, u: nat)
    requires WellFormed(d) && IsCoalition(b, d.n) && u < |d.rows|
  {
    forall j | 0 <= j < |b| :: a(X(b[j], h, Mark(d, b[j], u)))
  }

  /** Under `a`, instance `u` validates no criterion of `b` at level `h`. */
  predicate ValidatesNone(d: Data, a: Prop -> bool, h: nat, b: seq<nat>, u: nat)
    requires WellFormed(d) && IsCoalition(b, d.n) && u < |d.rows|
  {
    forall j | 0 <= j < |b| :: !a(X(b[j], h, Mark(d, b[j], u)))
  }

  /** `[-y[B,h], -z[u]] + [-x[i,h,X[i,u]] for i in B]`. */
  function C5Clause(d: Data, h: nat, b: seq<nat>, u: nat): (c: Clause<Prop>)
    requires WellFormed(d) && IsCoalition(b, d.n) && u < |d.rows|
    ensures |c| == |b| + 2
  {
    [Neg(Y(b, h)), Neg(Z(u))] + seq(|b|, j requires 0 <= j < |b| => Neg(X(b[j], h, Mark(d, b[j], u))))
  }

  /** `[y[B_comp,h], -z[u]] + [x[i,h,X[i,u]] for i in B]`. */
  function C6Clause(d: Data, h: nat, b: seq<nat>, u: nat): (c: Clause<Prop>)
    requires WellFormed(d) && IsCoalition(b, d.n) && u < |d.rows|
    ensures |c| == |b| + 2
  {
    [Pos(Y(Complement(d.n, b), h)), Neg(Z(u))] + seq(|b|, j requires 0 <= j < |b| => Pos(X(b[j], h, Mark(d, b[j], u))))
  }

  /** A c5 clause forbids a correctly classified instance from validating a
      coalition that is sufficient at the level just above its class. */
  lemma C5ClauseHolds(d: Data, a: Prop -> bool, h: nat, b: seq<nat>, u: nat)
    requires WellFormed(d) && IsCoalition(b, d.n) && u < |d.rows|
    ensures Satisfies(a, C5Clause(d, h, b, u)) <==> (a(Y(b, h)) && a(Z(u)) ==> !Validates(d, a, h, b, u))
  {
    var c := C5Clause(d, h, b, u);
    if Satisfies(a, c) && a(Y(b, h)) && a(Z(u)) {
      var j :| 0 <= j < |c| && Holds(a, c[j]);
      assert !a(X(b[j - 2], h, Mark(d, b[j - 2], u)));
    }
    if !a(Y(b, h)) {
      assert Holds(a, c[0]);
    } else if !a(Z(u)) {
      assert Holds(a, c[1]);
    } else if !Validates(d, a, h, b, u) {
      var j :| 0 <= j < |b| && !a(X(b[j], h, Mark(d, b[j], u)));
      assert Holds(a, c[j + 2]);
    }
  }

  /** A c6 clause makes the complement of `b` sufficient at level `h` as soon
      as a correctly classified instance of class `h` validates no criterion of `b`. */
  lemma C6ClauseHolds(d: Data, a: Prop -> bool, h: nat, b: seq<nat>, u: nat)
    requires WellFormed(d) && IsCoalition(b, d.n) && u < |d.rows|
    ensures Satisfies(a, C6Clause(d, h, b, u)) <==>
              (a(Z(u)) && ValidatesNone(d, a, h, b, u) ==> a(Y(Complement(d.n, b), h)))
  {
    var c := C6Clause(d, h, b, u);
    if Satisfies(a, c) && a(Z(u)) && ValidatesNone(d, a, h, b, u) {
      forall j | 2 <= j < |c|
        ensures !Holds(a, c[j])
      {
        assert c[j] == Pos(X(b[j - 2], h, Mark(d, b[j - 2], u)));
      }
    }
    if a(Y(Complement(d.n, b), h)) {
      assert Holds(a, c[0]);
    } else if !a(Z(u)) {
      assert Holds(a, c[1]);
    } else if !ValidatesNone(d, a, h, b, u) {
      var j :| 0 <= j < |b| && a(X(b[j], h, Mark(d, b[j], u)));
      assert Holds(a, c[j + 2]);
    }
  }

  function C5Class(d: Data, h: nat, b: seq<nat>): seq<Clause<Prop>>
    requires WellFormed(d) && IsCoalition(b, d.n) && h >= 1
  {
    FlatMap(ClassMembers(d, h - 1), (u: nat) requires WellFormed(d) && IsCoalition(b, d.n) && u < |d.rows| => [C5Clause(d, h, b, u)])
  }

  function C5Level(d: Data, h: nat): seq<Clause<Prop>>
    requires WellFormed(d) && h >= 1
  {
    FlatMap(AllCoalitions(d.n), (b: seq<nat>) requires WellFormed(d) && IsCoalition(b, d.n) && h >= 1 => C5Class(d, h, b))
  }

  /** `clauses_c5_`: for each level `h`, coalition `B` and instance `u` of
      class exactly `h - 1`, the clause `C5Clause(h, B, u)`. */
  function C5(d: Data): seq<Clause<Prop>>
    requires WellFormed(d)
  {
    FlatMap(Levels(d), (h: nat) requires WellFormed(d) && h >= 1 => C5Level(d, h))
  }

  function C6Class(d: Data, h: nat, b: seq<nat>): seq<Clause<Prop>>
    requires WellFormed(d) && IsCoalition(b, d.n)
  {
    FlatMap(ClassMembers(d, h), (u: nat) requires WellFormed(d) && IsCoalition(b, d.n) && u < |d.rows| => [C6Clause(d, h, b, u)])
  }

  function C6Level(d: Data, h: nat): seq<Clause<Prop>>
    requires WellFormed(d)
  {
    FlatMap(AllCoalitions(d.n), (b: seq<nat>) requires WellFormed(d) && IsCoalition(b, d.n) => C6Class(d, h, b))
  }

  /** `clauses_c6_`: for each level `h`, coalition `B` and instance `u` of
      class exactly `h`, the clause `C6Clause(h, B, u)`. */
  function C6(d: Data): seq<Clause<Prop>>
    requires WellFormed(d)
  {
    FlatMap(Levels(d), (h: nat) => C6Level(d, h))
  }

  /** No correctly classified instance of class `h - 1` validates a coalition
      sufficient at level `h`. */
  predicate LowerClassRejected(d: Data, a: Prop -> bool)
    requires WellFormed(d)
  {
    forall h, b | h in Levels(d) && b in AllCoalitions(d.n) :: LowerClassRejectedAt(d, a, h, b)
  }

  predicate LowerClassRejectedAt(d: Data, a: Prop -> bool, h: nat, b: seq<nat>)
    requires WellFormed(d) && IsCoalition(b, d.n) && h >= 1
  {
    forall u | u in ClassMembers(d, h - 1) :: a(Y(b, h)) && a(Z(u)) ==> !Validates(d, a, h, b, u)
  }

  /** A correctly classified instance of class `h` that validates no
      criterion of `B` at level `h` makes the complement of `B` sufficient. */
  predicate ClassAccepted(d: Data, a: Prop -> bool)
    requires WellFormed(d)
  {
    forall h, b | h in Levels(d) && b in AllCoalitions(d.n) :: ClassAcceptedAt(d, a, h, b)
  }

  predicate ClassAcceptedAt(d: Data, a: Prop -> bool, h: nat, b: seq<nat>)
    requires WellFormed(d) && IsCoalition(b, d.n)
  {
    forall u | u in ClassMembers(d, h) :: a(Z(u)) && ValidatesNone(d, a, h, b, u) ==> a(Y(Complement(d.n, b), h))
  }

  lemma C5ClassHolds(d: Data, a: Prop -> bool, h: nat, b: seq<nat>)
    requires WellFormed(d) && IsCoalition(b, d.n) && h >= 1
    ensures SatisfiesAll(a, C5Class(d, h, b)) <==> LowerClassRejectedAt(d, a, h, b)
  {
    SatisfiesAllFlatMap(a, ClassMembers(d, h - 1), (u: nat) requires WellFormed(d) && IsCoalition(b, d.n) && u < |d.rows| => [C5Clause(d, h, b, u)]);
    forall u | u in ClassMembers(d, h - 1)
      ensures SatisfiesAll(a, [C5Clause(d, h, b, u)]) <==> (a(Y(b, h)) && a(Z(u)) ==> !Validates(d, a, h, b, u))
    {
      C5ClauseHolds(d, a, h, b, u);
      assert [C5Clause(d, h, b, u)][0] == C5Clause(d, h, b, u);
    }
  }

  lemma C5LevelHolds(d: Data, a: Prop -> bool, h: nat)
    requires WellFormed(d) && h >= 1
    ensures SatisfiesAll(a, C5Level(d, h)) <==> forall b | b in AllCoalitions(d.n) :: LowerClassRejectedAt(d, a, h, b)
  {
    SatisfiesAllFlatMap(a, AllCoalitions(d.n), (b: seq<nat>) requires WellFormed(d) && IsCoalition(b, d.n) && h >= 1 => C5Class(d, h, b));
    forall b | b in AllCoalitions(d.n) {
      C5ClassHolds(d, a, h, b);
    }
  }

  /** The c5 clauses hold exactly when no instance of class `h - 1` counted as
      correct validates a coalition sufficient at level `h`. */
  lemma C5Holds(d: Data, a: Prop -> bool)
    requires WellFormed(d)
    ensures SatisfiesAll(a, C5(d)) <==> LowerClassRejected(d, a)
  {
    SatisfiesAllFlatMap(a, Levels(d), (h: nat) requires WellFormed(d) && h >= 1 => C5Level(d, h));
    forall h | h in Levels(d) {
      C5LevelHolds(d, a, h);
    }
  }

  lemma C6ClassHolds(d: Data, a: Prop -> bool, h: nat, b: seq<nat>)
    requires WellFormed(d) && IsCoalition(b, d.n)
    ensures SatisfiesAll(a, C6Class(d, h, b)) <==> ClassAcceptedAt(d, a, h, b)
  {
    SatisfiesAllFlatMap(a, ClassMembers(d, h), (u: nat) requires WellFormed(d) && IsCoalition(b, d.n) && u < |d.rows| => [C6Clause(d, h, b, u)]);
    forall u | u in ClassMembers(d, h)
      ensures SatisfiesAll(a, [C6Clause(d, h, b, u)]) <==>
                (a(Z(u)) && ValidatesNone(d, a, h, b, u) ==> a(Y(Complement(d.n, b), h)))
    {
      C6ClauseHolds(d, a, h, b, u);
      assert [C6Clause(d, h, b, u)][0] == C6Clause(d, h, b, u);
    }
  }

  lemma C6LevelHolds(d: Data, a: Prop -> bool, h: nat)
    requires WellFormed(d)
    ensures SatisfiesAll(a, C6Level(d, h)) <==> forall b | b in AllCoalitions(d.n) :: ClassAcceptedAt(d, a, h, b)
  {
    SatisfiesAllFlatMap(a, AllCoalitions(d.n), (b: seq<nat>) requires WellFormed(d) && IsCoalition(b, d.n) => C6Class(d, h, b));
    forall b | b in AllCoalitions(d.n) {
      C6ClassHolds(d, a, h, b);
    }
  }

  /** The c6 clauses hold exactly when every correct instance of class `h`
      that validates none of `B` makes the complement of `B` sufficient. */
  lemma C6Holds(d: Data, a: Prop -> bool)
    requires WellFormed(d)
    ensures SatisfiesAll(a, C6(d)) <==> ClassAccepted(d, a)
  {
    SatisfiesAllFlatMap(a, Levels(d), (h: nat) => C6Level(d, h));
    forall h | h in Levels(d) {
      C6LevelHolds(d, a, h);
    }
  }

  // ---------------------------------------------------------------------------
  // The goal, the whole clause list and its weights.

  /** `clauses_goal`: one unit clause `[z[u]]` per instance. */
  function Goal(d: Data): (r: seq<Clause<Prop>>)
    ensures |r| == |d.rows|
    ensures forall u | 0 <= u < |r| :: r[u] == [Pos(Z(u))]
  {
    seq(|d.rows|, u requires 0 <= u < |d.rows| => [Pos(Z(u))])
  }

  /** The goal clauses hold exactly when every instance counts as correctly classified. */
  lemma GoalHolds(d: Data, a: Prop -> bool)
    ensures SatisfiesAll(a, Goal(d)) <==> forall u | 0 <= u < |d.rows| :: a(Z(u))
  {
    forall u | 0 <= u < |d.rows|
      ensures Satisfies(a, Goal(d)[u]) <==> a(Z(u))
    {
      assert Goal(d)[u][0] == Pos(Z(u));
    }
  }

  /** The hard clauses, `clauses_c1 + ... + clauses_c6_`. */
  function Hard(d: Data): seq<Clause<Prop>>
    requires WellFormed(d)
  {
    C1(d) + C2(d) + C3(d) + C4(d) + C5(d) + C6(d)
  }

  /** `self.myClauses`: the hard clauses followed by the goal clauses. */
  function Clauses(d: Data): seq<Clause<Prop>>
    requires WellFormed(d)
  {
    Hard(d) + Goal(d)
  }

  /** The properties an assignment must have for every hard clause to hold. */
  predicate Consistent(d: Data, a: Prop -> bool)
    requires WellFormed(d)
  {
    MarksUpward(d, a) && LevelsNested(d, a) && CoalitionsUpward(d, a) &&
    SufficiencyNested(d, a) && LowerClassRejected(d, a) && ClassAccepted(d, a)
  }

  /** The hard clauses hold exactly when the assignment describes a
      consistent NCS model: nested upward-closed profiles, upward-closed
      sufficient coalitions nested in the level, and agreement with every
      instance marked as correctly classified. */
  lemma HardHolds(d: Data, a: Prop -> bool)
    requires WellFormed(d)
    ensures SatisfiesAll(a, Hard(d)) <==> Consistent(d, a)
  {
    C1Holds(d, a);
    C2Holds(d, a);
    C3Holds(d, a);
    C4Holds(d, a);
    C5Holds(d, a);
    C6Holds(d, a);
    SatisfiesAllConcat(a, C1(d), C2(d));
    SatisfiesAllConcat(a, C1(d) + C2(d), C3(d));
    SatisfiesAllConcat(a, C1(d) + C2(d) + C3(d), C4(d));
    SatisfiesAllConcat(a, C1(d) + C2(d) + C3(d) + C4(d), C5(d));
    SatisfiesAllConcat(a, C1(d) + C2(d) + C3(d) + C4(d) + C5(d), C6(d));
  }

  /** `w_max = data.size + 1`, the weight of a hard clause. */
  function HardWeight(d: Data): nat {
    Size(d) + 1
  }

  /** `[w_max] * len(hard) + [1] * len(goal)`. */
  function Weights(d: Data): seq<int>
    requires WellFormed(d)
  {
    seq(|Hard(d)|, _ => HardWeight(d) as int) + seq(|Goal(d)|, _ => 1)
  }

  /** One weight per clause: `w_max` on every hard clause, 1 on every goal
      clause, and `w_max` exceeds the total weight of the goal clauses. */
  lemma WeightsShape(d: Data)
    requires WellFormed(d)
    ensures |Weights(d)| == |Clauses(d)|
    ensures forall j | 0 <= j < |Hard(d)| :: Weights(d)[j] == HardWeight(d)
    ensures forall u | 0 <= u < |d.rows| ::
              Clauses(d)[|Hard(d)| + u] == [Pos(Z(u))] && Weights(d)[|Hard(d)| + u] == 1
    ensures HardWeight(d) > |Goal(d)|
  {
    var hard, goal := Hard(d), Goal(d);
    assert Clauses(d) == hard + goal;
    forall u | 0 <= u < |d.rows|
      ensures Clauses(d)[|hard| + u] == [Pos(Z(u))]
    {
      assert (hard + goal)[|hard| + u] == goal[u];
    }
    SizeCoversRows(d);
  }

  lemma SizeCoversRows(d: Data)
    ensures Size(d) >= |d.rows|
  {
    assert |d.rows| * (d.n + 1) == |d.rows| * d.n + |d.rows|;
  }

  /** Hard clauses dominate: an assignment that violates a hard clause pays
      more than any assignment that satisfies them all, so an optimum of the
      weighted problem satisfies every hard clause whenever one can. */
  lemma HardDominates(d: Data, a: Prop -> bool, b: Prop -> bool)
    requires WellFormed(d)
    requires SatisfiesAll(a, Hard(d)) && !SatisfiesAll(b, Hard(d))
    ensures Penalty(b, Clauses(d), Weights(d)) > Penalty(a, Clauses(d), Weights(d))
  {
    var hw := seq(|Hard(d)|, _ => HardWeight(d) as int);
    var gw: seq<int> := seq(|Goal(d)|, _ => 1);
    PenaltyConcat(a, Hard(d), hw, Goal(d), gw);
    PenaltyConcat(b, Hard(d), hw, Goal(d), gw);
    PenaltySatisfied(a, Hard(d), hw);
    PenaltyRange(a, Goal(d), gw, 1);
    PenaltyViolated(b, Hard(d), hw, HardWeight(d));
    PenaltyRange(b, Goal(d), gw, 1);
    SizeCoversRows(d);
  }

  // ---------------------------------------------------------------------------
  // Every clause mentions only numbered variables, so `v2i` lookups succeed.

  predicate Mentions(d: Data, c: Clause<Prop>)
    requires WellFormed(d)
  {
    forall j | 0 <= j < |c| :: IsVar(d, c[j].v)
  }

  lemma MarkObserved(d: Data, i: nat, u: nat)
    requires WellFormed(d) && i < d.n && u < |d.rows|
    ensures Mark(d, i, u) in Column(d, i)
  {
    assert Column(d, i)[u] == Mark(d, i, u);
  }

  lemma ImpliesMentions(d: Data, p: Prop, q: Prop)
    requires WellFormed(d) && IsVar(d, p) && IsVar(d, q)
    ensures Mentions(d, Implies(p, q))
  {
  }

  lemma C1MarkMentions(d: Data, h: nat, i: nat, k: real)
    requires WellFormed(d) && h in Levels(d) && i < d.n && k in Column(d, i)
    ensures forall c | c in C1Mark(d, h, i, k) :: Mentions(d, c)
  {
    FlatMapMember(Column(d, i), (kp: real) => When(k < kp, Implies(X(i, h, k), X(i, h, kp))));
    forall kp | kp in Column(d, i)
      ensures forall c | c in When(k < kp, Implies(X(i, h, k), X(i, h, kp))) :: Mentions(d, c)
    {
      ImpliesMentions(d, X(i, h, k), X(i, h, kp));
    }
  }

  lemma C1Mentions(d: Data)
    requires WellFormed(d)
    ensures forall c | c in C1(d) :: Mentions(d, c)
  {
    forall h, i: nat, k | h in Levels(d) && i < d.n && k in Column(d, i)
      ensures forall c | c in C1Mark(d, h, i, k) :: Mentions(d, c)
    {
      C1MarkMentions(d, h, i, k);
    }
    forall h, i: nat | h in Levels(d) && i < d.n
      ensures forall c | c in C1Crit(d, h, i) :: Mentions(d, c)
    {
      FlatMapMember(Column(d, i), (k: real) => C1Mark(d, h, i, k));
    }
    forall h | h in Levels(d)
      ensures forall c | c in C1Level(d, h) :: Mentions(d, c)
    {
      FlatMapMember(Range(0, d.n), (i: nat) requires WellFormed(d) && i < d.n => C1Crit(d, h, i));
    }
    FlatMapMember(Levels(d), (h: nat) => C1Level(d, h));
  }

  lemma C2LevelsMentions(d: Data, i: nat, k: real, h: nat)
    requires WellFormed(d) && i < d.n && k in Column(d, i) && h in Levels(d)
    ensures forall c | c in C2Levels(d, i, k, h) :: Mentions(d, c)
  {
    FlatMapMember(Levels(d), (hp: nat) => When(h < hp, Implies(X(i, hp, k), X(i, h, k))));
    forall hp | hp in Levels(d)
      ensures forall c | c in When(h < hp, Implies(X(i, hp, k), X(i, h, k))) :: Mentions(d, c)
    {
      ImpliesMentions(d, X(i, hp, k), X(i, h, k));
    }
  }

  lemma C2Mentions(d: Data)
    requires WellFormed(d)
    ensures forall c | c in C2(d) :: Mentions(d, c)
  {
    forall i: nat, k, h | i < d.n && k in Column(d, i) && h in Levels(d)
      ensures forall c | c in C2Levels(d, i, k, h) :: Mentions(d, c)
    {
      C2LevelsMentions(d, i, k, h);
    }
    forall i: nat, k | i < d.n && k in Column(d, i)
      ensures forall c | c in C2Mark(d, i, k) :: Mentions(d, c)
    {
      FlatMapMember(Levels(d), (h: nat) => C2Levels(d, i, k, h));
    }
    forall i: nat | i < d.n
      ensures forall c | c in C2Crit(d, i) :: Mentions(d, c)
    {
      FlatMapMember(Column(d, i), (k: real) => C2Mark(d, i, k));
    }
    FlatMapMember(Range(0, d.n), (i: nat) requires WellFormed(d) && i < d.n => C2Crit(d, i));
  }

  lemma C3CoalitionMentions(d: Data, h: nat, b: seq<nat>)
    requires WellFormed(d) && h in Levels(d) && b in AllCoalitions(d.n)
    ensures forall c | c in C3Coalition(d, h, b) :: Mentions(d, c)
  {
    FlatMapMember(AllCoalitions(d.n), (bp: seq<nat>) => When(StrictSubset(b, bp), Implies(Y(b, h), Y(bp, h))));
    forall bp | bp in AllCoalitions(d.n)
      ensures forall c | c in When(StrictSubset(b, bp), Implies(Y(b, h), Y(bp, h))) :: Mentions(d, c)
    {
      ImpliesMentions(d, Y(b, h), Y(bp, h));
    }
  }

  lemma C3Mentions(d: Data)
    requires WellFormed(d)
    ensures forall c | c in C3(d) :: Mentions(d, c)
  {
    forall h, b | h in Levels(d) && b in AllCoalitions(d.n)
      ensures forall c | c in C3Coalition(d, h, b) :: Mentions(d, c)
    {
      C3CoalitionMentions(d, h, b);
    }
    forall h | h in Levels(d)
      ensures forall c | c in C3Level(d, h) :: Mentions(d, c)
    {
      FlatMapMember(AllCoalitions(d.n), (b: seq<nat>) => C3Coalition(d, h, b));
    }
    FlatMapMember(Levels(d), (h: nat) => C3Level(d, h));
  }

  lemma C4LevelsMentions(d: Data, b: seq<nat>, h: nat)
    requires WellFormed(d) && b in AllCoalitions(d.n) && h in Levels(d)
    ensures forall c | c in C4Levels(d, b, h) :: Mentions(d, c)
  {
    FlatMapMember(Levels(d), (hp: nat) => When(h < hp, Implies(Y(b, hp), Y(b, h))));
    forall hp | hp in Levels(d)
      ensures forall c | c in When(h < hp, Implies(Y(b, hp), Y(b, h))) :: Mentions(d, c)
    {
      ImpliesMentions(d, Y(b, hp), Y(b, h));
    }
  }

  lemma C4Mentions(d: Data)
    requires WellFormed(d)
    ensures forall c | c in C4(d) :: Mentions(d, c)
  {
    forall b, h | b in AllCoalitions(d.n) && h in Levels(d)
      ensures forall c | c in C4Levels(d, b, h) :: Mentions(d, c)
    {
      C4LevelsMentions(d, b, h);
    }
    forall b | b in AllCoalitions(d.n)
      ensures forall c | c in C4Coalition(d, b) :: Mentions(d, c)
    {
      FlatMapMember(Levels(d), (h: nat) => C4Levels(d, b, h));
    }
    FlatMapMember(AllCoalitions(d.n), (b: seq<nat>) => C4Coalition(d, b));
  }

  lemma C5ClauseMentions(d: Data, h: nat, b: seq<nat>, u: nat)
    requires WellFormed(d) && h in Levels(d) && IsCoalition(b, d.n) && u < |d.rows|
    ensures Mentions(d, C5Clause(d, h, b, u))
  {
    var c := C5Clause(d, h, b, u);
    forall j | 2 <= j < |c|
      ensures IsVar(d, c[j].v)
    {
      assert c[j].v == X(b[j - 2], h, Mark(d, b[j - 2], u));
      MarkObserved(d, b[j - 2], u);
    }
  }

  lemma C6ClauseMentions(d: Data, h: nat, b: seq<nat>, u: nat)
    requires WellFormed(d) && h in Levels(d) && IsCoalition(b, d.n) && u < |d.rows|
    ensures Mentions(d, C6Clause(d, h, b, u))
  {
    var c := C6Clause(d, h, b, u);
    forall j | 2 <= j < |c|
      ensures IsVar(d, c[j].v)
    {
      assert c[j].v == X(b[j - 2], h, Mark(d, b[j - 2], u));
      MarkObserved(d, b[j - 2], u);
    }
  }

  lemma C5Mentions(d: Data)
    requires WellFormed(d)
    ensures forall c | c in C5(d) :: Mentions(d, c)
  {
    forall h, b | h in Levels(d) && b in AllCoalitions(d.n)
      ensures forall c | c in C5Class(d, h, b) :: Mentions(d, c)
    {
      forall u | u in ClassMembers(d, h - 1)
        ensures forall c | c in [C5Clause(d, h, b, u)] :: Mentions(d, c)
      {
        C5ClauseMentions(d, h, b, u);
      }
      FlatMapMember(ClassMembers(d, h - 1), (u: nat) requires WellFormed(d) && IsCoalition(b, d.n) && u < |d.rows| => [C5Clause(d, h, b, u)]);
    }
    forall h | h in Levels(d)
      ensures forall c | c in C5Level(d, h) :: Mentions(d, c)
    {
      FlatMapMember(AllCoalitions(d.n), (b: seq<nat>) requires WellFormed(d) && IsCoalition(b, d.n) && h >= 1 => C5Class(d, h, b));
    }
    FlatMapMember(Levels(d), (h: nat) requires WellFormed(d) && h >= 1 => C5Level(d, h));
  }

  lemma C6Mentions(d: Data)
    requires WellFormed(d)
    ensures forall c | c in C6(d) :: Mentions(d, c)
  {
    forall h, b | h in Levels(d) && b in AllCoalitions(d.n)
      ensures forall c | c in C6Class(d, h, b) :: Mentions(d, c)
    {
      forall u | u in ClassMembers(d, h)
        ensures forall c | c in [C6Clause(d, h, b, u)] :: Mentions(d, c)
      {
        C6ClauseMentions(d, h, b, u);
      }
      FlatMapMember(ClassMembers(d, h), (u: nat) requires WellFormed(d) && IsCoalition(b, d.n) && u < |d.rows| => [C6Clause(d, h, b, u)]);
    }
    forall h | h in Levels(d)
      ensures forall c | c in C6Level(d, h) :: Mentions(d, c)
    {
      FlatMapMember(AllCoalitions(d.n), (b: seq<nat>) requires WellFormed(d) && IsCoalition(b, d.n) => C6Class(d, h, b));
    }
    FlatMapMember(Levels(d), (h: nat) => C6Level(d, h));
  }

  /** Every literal of every clause names a variable of the model, so the
      `x[...]`, `y[...]` and `z[...]` lookups of the encoder never fail. */
  lemma ClausesMention(d: Data)
    requires WellFormed(d)
    ensures forall c | c in Clauses(d) :: Mentions(d, c)
  {
    C1Mentions(d);
    C2Mentions(d);
    C3Mentions(d);
    C4Mentions(d);
    C5Mentions(d);
    C6Mentions(d);
    var c1, c2, c3, c4, c5, c6, g := C1(d), C2(d), C3(d), C4(d), C5(d), C6(d), Goal(d);
    assert Clauses(d) == c1 + c2 + c3 + c4 + c5 + c6 + g;
    forall c | c in g
      ensures Mentions(d, c)
    {
      var u :| 0 <= u < |g| && g[u] == c;
    }
  }
}
