/** Propositional vocabulary shared by the SAT and MaxSAT encoders: literals
    and clauses over an arbitrary proposition type, the dense numbering of
    propositions (`v2i`) and its inverse (`i2v`), and the translation of
    clauses to and from the signed-integer form the solver reads. */
module Formula {
  import opened Seqs
  import opened Wrappers

  datatype Lit<P> = Pos(v: P) | Neg(v: P)

  type Clause<P> = seq<Lit<P>>

  /** Truth of a literal under an assignment of truth values to propositions. */
  predicate Holds<P>(a: P -> bool, l: Lit<P>) {
    if l.Pos? then a(l.v) else !a(l.v)
  }

  /** A clause is a disjunction: some literal in it holds. */
  predicate Satisfies<P>(a: P -> bool, c: Clause<P>) {
    exists j | 0 <= j < |c| :: Holds(a, c[j])
  }

  predicate SatisfiesAll<P>(a: P -> bool, cs: seq<Clause<P>>) {
    forall j | 0 <= j < |cs| :: Satisfies(a, cs[j])
  }

  lemma SatisfiesAllConcat<P>(a: P -> bool, cs: seq<Clause<P>>, ds: seq<Clause<P>>)
    ensures SatisfiesAll(a, cs + ds) <==> SatisfiesAll(a, cs) && SatisfiesAll(a, ds)
  {
    if SatisfiesAll(a, cs) && SatisfiesAll(a, ds) {
      forall j | 0 <= j < |cs + ds|
        ensures Satisfies(a, (cs + ds)[j])
      {
        if j >= |cs| {
          assert (cs + ds)[j] == ds[j - |cs|];
        }
      }
    }
    if SatisfiesAll(a, cs + ds) {
      forall j | 0 <= j < |cs|
        ensures Satisfies(a, cs[j])
      {
        assert (cs + ds)[j] == cs[j];
      }
      forall j | 0 <= j < |ds|
        ensures Satisfies(a, ds[j])
      {
        assert (cs + ds)[|cs| + j] == ds[j];
      }
    }
  }

  /** A comprehension of clauses is satisfied exactly when each generator's
      clauses are. */
  lemma {:induction false} SatisfiesAllFlatMap<A(!new), P(!new)>(a: P -> bool, s: seq<A>, f: A --> seq<Clause<P>>)
    requires forall x | x in s :: f.requires(x)
    ensures SatisfiesAll(a, FlatMap(s, f)) <==> forall x | x in s :: SatisfiesAll(a, f(x))
  {
    if |s| > 0 {
      assert forall x | x in s[1..] :: x in s;
      SatisfiesAllFlatMap(a, s[1..], f);
      SatisfiesAllConcat(a, f(s[0]), FlatMap(s[1..], f));
      assert forall x | x in s :: x == s[0] || x in s[1..];
    }
  }

  /** The binary clause `[q, -p]`, read as the implication `p -> q`. */
  function Implies<P>(p: P, q: P): Clause<P> {
    [Pos(q), Neg(p)]
  }

  lemma ImpliesHolds<P>(a: P -> bool, p: P, q: P)
    ensures SatisfiesAll(a, [Implies(p, q)]) <==> (a(p) ==> a(q))
  {
    var c := Implies(p, q);
    if a(p) ==> a(q) {
      if a(q) {
        assert Holds(a, c[0]);
      } else {
        assert Holds(a, c[1]);
      }
    }
    if SatisfiesAll(a, [c]) {
      assert Satisfies(a, [c][0]);
      var j :| 0 <= j < |c| && Holds(a, c[j]);
    }
  }

  /** The total weight of the clauses an assignment violates, the quantity a
      MaxSAT solver minimises. */
  function Penalty<P>(a: P -> bool, cs: seq<Clause<P>>, ws: seq<int>): int
    requires |ws| == |cs|
  {
    if |cs| == 0 then 0
    else (if Satisfies(a, cs[0]) then 0 else ws[0]) + Penalty(a, cs[1..], ws[1..])
  }

  lemma {:induction false} PenaltyConcat<P>(a: P -> bool, cs: seq<Clause<P>>, ws: seq<int>, ds: seq<Clause<P>>, vs: seq<int>)
    requires |ws| == |cs| && |vs| == |ds|
    ensures Penalty(a, cs + ds, ws + vs) == Penalty(a, cs, ws) + Penalty(a, ds, vs)
  {
    if |cs| > 0 {
      assert (cs + ds)[1..] == cs[1..] + ds;
      assert (ws + vs)[1..] == ws[1..] + vs;
      PenaltyConcat(a, cs[1..], ws[1..], ds, vs);
    } else {
      assert cs + ds == ds && ws + vs == vs;
    }
  }

  /** With weights in `0..w`, the penalty lies between 0 and `w` per clause. */
  lemma {:induction false} PenaltyRange<P>(a: P -> bool, cs: seq<Clause<P>>, ws: seq<int>, w: int)
    requires |ws| == |cs|
    requires forall j | 0 <= j < |ws| :: 0 <= ws[j] <= w
    ensures 0 <= Penalty(a, cs, ws) <= |cs| * w
  {
    if |cs| > 0 {
      PenaltyRange(a, cs[1..], ws[1..], w);
    }
  }

  /** An assignment satisfying every clause pays nothing. */
  lemma {:induction false} PenaltySatisfied<P>(a: P -> bool, cs: seq<Clause<P>>, ws: seq<int>)
    requires |ws| == |cs|
    requires SatisfiesAll(a, cs)
    ensures Penalty(a, cs, ws) == 0
  {
    if |cs| > 0 {
      assert Satisfies(a, cs[0]);
      forall j | 0 <= j < |cs[1..]|
        ensures Satisfies(a, cs[1..][j])
      {
        assert cs[1..][j] == cs[j + 1];
      }
      PenaltySatisfied(a, cs[1..], ws[1..]);
    }
  }

  /** Violating one clause whose weights are all at least `w >= 0` costs at least `w`. */
  lemma {:induction false} PenaltyViolated<P>(a: P -> bool, cs: seq<Clause<P>>, ws: seq<int>, w: int)
    requires |ws| == |cs| && w >= 0
    requires forall j | 0 <= j < |ws| :: ws[j] >= w
    requires !SatisfiesAll(a, cs)
    ensures Penalty(a, cs, ws) >= w
  {
    if !Satisfies(a, cs[0]) {
      PenaltyNonNegative(a, cs[1..], ws[1..]);
    } else {
      var j :| 0 <= j < |cs| && !Satisfies(a, cs[j]);
      assert cs[1..][j - 1] == cs[j];
      PenaltyViolated(a, cs[1..], ws[1..], w);
    }
  }

  lemma {:induction false} PenaltyNonNegative<P>(a: P -> bool, cs: seq<Clause<P>>, ws: seq<int>)
    requires |ws| == |cs|
    requires forall j | 0 <= j < |ws| :: ws[j] >= 0
    ensures Penalty(a, cs, ws) >= 0
  {
    if |cs| > 0 {
      PenaltyNonNegative(a, cs[1..], ws[1..]);
    }
  }

  /** `v2i = {v: i + 1 for i, v in enumerate(variables)}`: the proposition at
      position `j` gets id `j + 1`. */
  function V2I<P(!new)>(vars: seq<P>): (m: map<P, nat>)
    requires Distinct(vars)
    ensures forall v :: v in m <==> v in vars
    ensures forall v {:trigger m[v]} | v in m :: 1 <= m[v] <= |vars| && vars[m[v] - 1] == v
  {
    map j | 0 <= j < |vars| :: vars[j] := j + 1
  }

  /** `i2v`, the id-to-proposition dictionary. */
  function I2V<P>(vars: seq<P>): (m: map<nat, P>)
    ensures forall i :: i in m <==> 1 <= i <= |vars|
    ensures forall i | i in m :: m[i] == vars[i - 1]
  {
    map i | 1 <= i <= |vars| :: Named(vars, i)
  }

  /** The proposition numbered `i`. */
  function Named<P>(vars: seq<P>, i: int): P
    requires 1 <= i <= |vars|
  {
    vars[i - 1]
  }

  /** Ids form a bijection between the variables and `1..|vars|`, and `i2v`
      undoes `v2i` in both directions. */
  lemma NumberingBijection<P(!new)>(vars: seq<P>)
    requires Distinct(vars)
    ensures forall j | 0 <= j < |vars| :: V2I(vars)[vars[j]] == j + 1
    ensures forall v | v in V2I(vars) :: I2V(vars)[V2I(vars)[v]] == v
    ensures forall i | i in I2V(vars) :: I2V(vars)[i] in V2I(vars) && V2I(vars)[I2V(vars)[i]] == i
  {
    var m := V2I(vars);
    forall j | 0 <= j < |vars|
      ensures m[vars[j]] == j + 1
    {
      var k := m[vars[j]] - 1;
      assert vars[k] == vars[j];
    }
  }

  /** The solver's signed integer for a literal: `v2i[v]` or `-v2i[v]`. */
  function EncodeLit<P>(v2i: map<P, nat>, l: Lit<P>): int
    requires l.v in v2i
  {
    if l.Pos? then v2i[l.v] else -(v2i[l.v] as int)
  }

  predicate Covered<P>(v2i: map<P, nat>, c: Clause<P>) {
    forall j | 0 <= j < |c| :: c[j].v in v2i
  }

  /** The clause as the list of signed ids the Python code builds. */
  function EncodeClause<P>(v2i: map<P, nat>, c: Clause<P>): (r: seq<int>)
    requires Covered(v2i, c)
    ensures |r| == |c|
  {
    seq(|c|, j requires 0 <= j < |c| => EncodeLit(v2i, c[j]))
  }

  function EncodeClauses<P>(v2i: map<P, nat>, cs: seq<Clause<P>>): (r: seq<seq<int>>)
    requires forall j | 0 <= j < |cs| :: Covered(v2i, cs[j])
    ensures |r| == |cs|
  {
    seq(|cs|, j requires 0 <= j < |cs| => EncodeClause(v2i, cs[j]))
  }

  function Abs(i: int): nat {
    if i < 0 then -i else i
  }

  /** The solver's reading of a signed id: `i2v[abs(v)]` with sign `v > 0`;
      an id outside `i2v` is Python's `KeyError`. */
  function DecodeLit<P>(i2v: map<nat, P>, l: int): Option<Lit<P>> {
    if Abs(l) !in i2v then None
    else if l > 0 then Some(Pos(i2v[Abs(l)]))
    else Some(Neg(i2v[Abs(l)]))
  }

  function DecodeClause<P>(i2v: map<nat, P>, c: seq<int>): Option<Clause<P>> {
    if |c| == 0 then Some([])
    else
      var l :- DecodeLit(i2v, c[0]);
      var rest :- DecodeClause(i2v, c[1..]);
      Some([l] + rest)
  }

  /** Every encoded literal is a non-zero id in `1..|vars|` up to sign, so it
      never collides with the DIMACS clause terminator `0`. */
  lemma EncodedLiteralRange<P(!new)>(vars: seq<P>, c: Clause<P>)
    requires Distinct(vars)
    requires Covered(V2I(vars), c)
    ensures forall j | 0 <= j < |c| ::
              EncodeClause(V2I(vars), c)[j] != 0 && Abs(EncodeClause(V2I(vars), c)[j]) <= |vars|
  {
  }

  /** Reading an encoded clause back through `i2v` gives the clause itself. */
  lemma {:induction false} ClauseRoundTrip<P(!new)>(vars: seq<P>, c: Clause<P>)
    requires Distinct(vars)
    requires Covered(V2I(vars), c)
    ensures DecodeClause(I2V(vars), EncodeClause(V2I(vars), c)) == Some(c)
    decreases |c|
  {
    if |c| > 0 {
      var e := EncodeClause(V2I(vars), c);
      assert e[1..] == EncodeClause(V2I(vars), c[1..]);
      LitRoundTrip(vars, c[0]);
      ClauseRoundTrip(vars, c[1..]);
      assert [c[0]] + c[1..] == c;
    }
  }

  lemma LitRoundTrip<P(!new)>(vars: seq<P>, l: Lit<P>)
    requires Distinct(vars)
    requires l.v in V2I(vars)
    ensures DecodeLit(I2V(vars), EncodeLit(V2I(vars), l)) == Some(l)
  {
    var id := V2I(vars)[l.v];
    assert I2V(vars)[id] == l.v;
  }

  /** The assignment the solver reports, one truth value per id `1..|vals|`,
      read back as an assignment of propositions. */
  function Lift<P(==,!new)>(vars: seq<P>, vals: seq<bool>): P -> bool
    requires Distinct(vars) && |vals| == |vars|
  {
    v => v in V2I(vars) && vals[V2I(vars)[v] - 1]
  }

  /** The proposition at position `j` takes the `j`-th truth value, and a
      proposition outside `vars` is false. */
  lemma LiftAt<P(!new)>(vars: seq<P>, vals: seq<bool>, v: P)
    requires Distinct(vars) && |vals| == |vars|
    ensures forall j | 0 <= j < |vars| && vars[j] == v :: Lift(vars, vals)(v) == vals[j]
    ensures v !in vars ==> !Lift(vars, vals)(v)
  {
    NumberingBijection(vars);
  }

  /** A signed-id clause holds under the solver's truth values. */
  predicate SatisfiesIds(vals: seq<bool>, c: seq<int>) {
    exists j | 0 <= j < |c| :: 1 <= Abs(c[j]) <= |vals| && vals[Abs(c[j]) - 1] == (c[j] > 0)
  }

  /** The solver's truth values satisfy an encoded clause exactly when the
      propositions they stand for satisfy the clause. */
  lemma EncodeSatisfies<P(!new)>(vars: seq<P>, vals: seq<bool>, c: Clause<P>)
    requires Distinct(vars) && |vals| == |vars|
    requires Covered(V2I(vars), c)
    ensures SatisfiesIds(vals, EncodeClause(V2I(vars), c)) <==> Satisfies(Lift(vars, vals), c)
  {
    var e := EncodeClause(V2I(vars), c);
    var a := Lift(vars, vals);
    if SatisfiesIds(vals, e) {
      var j :| 0 <= j < |e| && 1 <= Abs(e[j]) <= |vals| && vals[Abs(e[j]) - 1] == (e[j] > 0);
      assert Holds(a, c[j]);
    }
    if Satisfies(a, c) {
      var j :| 0 <= j < |c| && Holds(a, c[j]);
      assert 1 <= Abs(e[j]) <= |vals| && vals[Abs(e[j]) - 1] == (e[j] > 0);
    }
  }
}
