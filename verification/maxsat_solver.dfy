/** `MaxSATSolver` end to end (Inv-NCS/maxsat.py): the clauses numbered
    through `v2i` and written as a weighted DIMACS file, and the solver's
    report parsed and decoded into an NCS model. Running the solver, writing
    files and timing are left to the caller: the solver's output is a
    parameter. */
module MaxSatSolver {
  import opened Wrappers
  import opened Seqs
  import opened Text
  import Formula
  import opened Dimacs
  import opened Dataset
  import opened MaxSatVars
  import opened MaxSatClauses
  import opened SolverOutput
  import opened MaxSatDecode

  /** `myClauses` as the lists of signed ids the solver reads. */
  function Encoded(d: Data): (r: seq<seq<int>>)
    requires WellFormed(d)
    ensures |r| == |Clauses(d)|
    ensures forall j | 0 <= j < |r| :: NonZero(r[j])
    ensures forall j, l | 0 <= j < |r| && 0 <= l < |r[j]| :: 1 <= Formula.Abs(r[j][l]) <= |Vars(d)|
  {
    var cs := Clauses(d);
    CoveredClauses(d);
    var r := Formula.EncodeClauses(V2I(d), cs);
    forall j | 0 <= j < |r|
      ensures NonZero(r[j]) && forall l | 0 <= l < |r[j]| :: 1 <= Formula.Abs(r[j][l]) <= |Vars(d)|
    {
      VarsDistinct(d);
      Formula.EncodedLiteralRange(Vars(d), cs[j]);
    }
    r
  }

  /** Every clause only mentions numbered variables. */
  lemma CoveredClauses(d: Data)
    requires WellFormed(d)
    ensures forall j | 0 <= j < |Clauses(d)| :: Formula.Covered(V2I(d), Clauses(d)[j])
  {
    ClausesMention(d);
    var cs := Clauses(d);
    forall j | 0 <= j < |cs|
      ensures Formula.Covered(V2I(d), cs[j])
    {
      assert cs[j] in cs;
    }
  }

  /** `myDimacs`: the weighted clause file `_clauses_to_dimacs` writes, with
      one variable per key of `v2i`. */
  function WcnfText(d: Data): string
    requires WellFormed(d)
  {
    Wcnf(Encoded(d), Weights(d), |Vars(d)|)
  }

  /** The file declares every variable and reads back as exactly the
      weighted clauses of the model, hard clauses first. */
  lemma WcnfTextReads(d: Data)
    requires WellFormed(d)
    ensures Read(WcnfText(d), "wcnf", true) == Some(DimacsFile(|Vars(d)|, Weights(d), Encoded(d)))
  {
    WeightsShape(d);
    WcnfRoundTrip(Encoded(d), Weights(d), |Vars(d)|);
  }

  /** Each numbered clause names, through `i2v`, the very clause it came from. */
  lemma EncodedDecodes(d: Data, j: nat)
    requires WellFormed(d) && j < |Clauses(d)|
    ensures Formula.DecodeClause(I2V(d), Encoded(d)[j]) == Some(Clauses(d)[j])
  {
    CoveredClauses(d);
    VarsDistinct(d);
    Formula.ClauseRoundTrip(Vars(d), Clauses(d)[j]);
  }

  /** The assignment a list of truth values for the ids `1..|Vars|`
      describes: the variable numbered `j + 1` takes the `j`-th value, and a
      proposition that is not a variable of the model is false. */
  function Reading(d: Data, vals: seq<bool>): (a: Prop -> bool)
    requires WellFormed(d) && |vals| == |Vars(d)|
    ensures forall j | 0 <= j < |vals| :: a(Vars(d)[j]) == vals[j]
    ensures forall v | !IsVar(d, v) :: !a(v)
  {
    var vars := Vars(d);
    VarsDistinct(d);
    var a := Formula.Lift(vars, vals);
    forall j | 0 <= j < |vals| ensures a(vars[j]) == vals[j] {
      Formula.LiftAt(vars, vals, vars[j]);
    }
    forall v | !IsVar(d, v) ensures !a(v) {
      VarsMember(d, v);
      Formula.LiftAt(vars, vals, v);
    }
    a
  }

  /** Truth values for the ids `1..|Vars|` satisfy every hard clause of the
      file exactly when the NCS model they describe is consistent. */
  lemma HardIdsHold(d: Data, vals: seq<bool>)
    requires WellFormed(d) && |vals| == |Vars(d)|
    ensures (forall j | 0 <= j < |Hard(d)| :: Formula.SatisfiesIds(vals, Encoded(d)[j])) <==>
            Consistent(d, Reading(d, vals))
  {
    var a := Reading(d, vals);
    var hard, cs := Hard(d), Clauses(d);
    assert cs == hard + Goal(d);
    CoveredClauses(d);
    VarsDistinct(d);
    forall j | 0 <= j < |hard|
      ensures Formula.SatisfiesIds(vals, Encoded(d)[j]) <==> Formula.Satisfies(a, hard[j])
    {
      assert cs[j] == hard[j];
      Formula.EncodeSatisfies(Vars(d), vals, cs[j]);
    }
    HardHolds(d, a);
  }

  // ---------------------------------------------------------------------------
  // Solving

  datatype SolveError =
    | ParseFailed(parse: ParseError)
    | DecodeFailed(decode: DecodeError)

  /** `solve` given the solver's captured output: parse the report, then
      decode the assignment. An unsatisfiable report leaves an empty
      assignment, which decodes to the initial intervals and nothing else. */
  function Solve(d: Data, stdout: string): (r: Result<(bool, Solution), SolveError>)
    requires WellFormed(d)
    ensures |SplitLines(stdout)| <= 2 ==> r == Failure(ParseFailed(MissingLine(2)))
    ensures (r.Failure? && r.error.ParseFailed?) <==> ParseMaxSat(I2V(d), stdout).Failure?
    ensures r.Success? ==>
              |SplitLines(stdout)| > 2 && (r.value.0 <==> SplitLines(stdout)[2] == "s OPTIMUM FOUND")
    ensures r.Success? && !r.value.0 ==>
              r.value.1 == Solution(Initial(d), [], [], [])
    ensures r.Success? ==>
              ParseMaxSat(I2V(d), stdout).Success? &&
              var vars := ParseMaxSat(I2V(d), stdout).value.variables;
              (forall j | 0 <= j < |vars| :: IsVar(d, vars[j].0)) &&
              Decode(d, vars) == Success(r.value.1) &&
              (forall h, i | 0 <= h < |r.value.1.profiles| && 0 <= i < |r.value.1.profiles[h]| ::
                 Tight(XSlice(d, vars), i, h + 1, r.value.1.profiles[h][i])) &&
              (forall b :: LevelsOf(r.value.1.sufficient, b) == Expected(YSlice(d, vars), b)) &&
              multiset(r.value.1.correct) + multiset(r.value.1.incorrect) == multiset(Firsts(ZSlice(d, vars)))
  {
    var parsed := ParseMaxSat(I2V(d), stdout);
    if parsed.Failure? then Failure(ParseFailed(parsed.error))
    else
      var vars := parsed.value.variables;
      ParsedAreVars(d, stdout);
      var decoded := Decode(d, vars);
      if decoded.Failure? then Failure(DecodeFailed(decoded.error))
      else
        assert !parsed.value.satisfiable ==> decoded.value == Solution(Initial(d), [], [], []) by {
          if !parsed.value.satisfiable {
            DecodeNothing(d);
          }
        }
        Success((parsed.value.satisfiable, decoded.value))
  }

  /** Whatever the parser reads back names variables of the model. */
  lemma ParsedAreVars(d: Data, stdout: string)
    requires WellFormed(d) && ParseMaxSat(I2V(d), stdout).Success?
    ensures forall j | 0 <= j < |ParseMaxSat(I2V(d), stdout).value.variables| ::
              IsVar(d, ParseMaxSat(I2V(d), stdout).value.variables[j].0)
  {
    var i2v := I2V(d);
    var vars := ParseMaxSat(i2v, stdout).value.variables;
    forall j | 0 <= j < |vars| ensures IsVar(d, vars[j].0) {
      assert vars[j].0 in Firsts(vars);
      var id :| id in i2v && i2v[id] == vars[j].0;
      I2VNamesVars(d, id);
    }
  }

  /** An empty assignment decodes to the initial intervals, no sufficient
      coalition and no classified instance. */
  lemma DecodeNothing(d: Data)
    requires WellFormed(d)
    ensures Decode(d, []) == Success(Solution(Initial(d), [], [], []))
  {
    assert XSlice(d, []) == [] && YSlice(d, []) == [] && ZSlice(d, []) == [];
  }

  /** The listing of a complete report is the complete answer of the
      assignment its truth values describe. */
  lemma ListingIsAnswer(d: Data, vals: seq<bool>)
    requires WellFormed(d) && |vals| == |Vars(d)|
    ensures Listing(I2V(d), vals) == Answer(d, Reading(d, vals))
  {
    var l, ans := Listing(I2V(d), vals), Answer(d, Reading(d, vals));
    forall j | 0 <= j < |vals|
      ensures l[j] == ans[j]
    {
      ListingAt(d, vals, j);
    }
  }

  lemma ListingAt(d: Data, vals: seq<bool>, j: nat)
    requires WellFormed(d) && |vals| == |Vars(d)| && j < |vals|
    ensures Listing(I2V(d), vals)[j] == Answer(d, Reading(d, vals))[j]
  {
    var v := Vars(d)[j];
    assert Listing(I2V(d), vals)[j] == (I2V(d)[j + 1], vals[j]);
    assert Answer(d, Reading(d, vals))[j] == (v, Reading(d, vals)(v));
    assert I2V(d)[j + 1] == v;
  }

  /** A report of an optimum listing every id once, in order, solves to the
      model decoded from the assignment those truth values describe. */
  lemma SolveReport(d: Data, vals: seq<bool>, l0: string, l1: string, rest: seq<string>)
    requires WellFormed(d) && |vals| == |Vars(d)|
    requires NoLineBreak(l0) && NoLineBreak(l1) && NoLineBreaks(rest)
    ensures Solve(d, Unlines([l0, l1, "s OPTIMUM FOUND", MaxSatValueLine(vals)] + rest))
            == Success((true, SolutionOf(d, Reading(d, vals))))
  {
    I2VDistinct(d);
    MaxSatRoundTrip(I2V(d), vals, l0, l1, rest);
    ListingIsAnswer(d, vals);
  }
}
