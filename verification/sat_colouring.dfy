/** `SATSolver.build_model` as it stands in Inv-NCS/sat.py: not yet an NCS
    encoding but a 3-colouring of the graph with vertices A, B, C, D and
    edges AB, AC, BC, BD. The (vertex, colour) pairs are numbered densely from
    1, the clauses say that every vertex has exactly one colour and that
    adjacent vertices differ, and the clauses are written as plain DIMACS CNF.
    The solver's `s SATISFIABLE` report is read back through `i2v`. */
module SatColouring {
  import opened Wrappers
  import opened Seqs
  import opened Text
  import opened Formula
  import opened Dimacs
  import opened SolverOutput

  datatype Vertex = A | B | C | D

  const Vertices: seq<Vertex> := [A, B, C, D]
  const Edges: seq<(Vertex, Vertex)> := [(A, B), (A, C), (B, C), (B, D)]
  const Colours: seq<nat> := [1, 2, 3]

  /** `combinations(Colors, 2)`. */
  const ColourPairs: seq<(nat, nat)> := [(1, 2), (1, 3), (2, 3)]

  /** A proposition: the vertex has the colour. */
  type Cell = (Vertex, nat)

  /** `[(i, j) for i in Vertices for j in Colors]`: vertex-major order. */
  function Variables(): (r: seq<Cell>)
    ensures |r| == 12
    ensures forall k | 0 <= k < 12 :: r[k] == (Vertices[k / 3], Colours[k % 3])
  {
    seq(12, k requires 0 <= k < 12 => (Vertices[k / 3], Colours[k % 3]))
  }

  /** Every vertex of the type is listed, at the position `Index` gives. */
  function Index(v: Vertex): (i: nat)
    ensures i < 4 && Vertices[i] == v
  {
    match v
    case A => 0
    case B => 1
    case C => 2
    case D => 3
  }

  /** Each vertex-colour pair is a variable, and only those. */
  lemma VariablesMember(cell: Cell)
    ensures cell in Variables() <==> 1 <= cell.1 <= 3
  {
    if 1 <= cell.1 <= 3 {
      assert Variables()[3 * Index(cell.0) + cell.1 - 1] == cell;
    }
  }

  lemma VariablesDistinct()
    ensures Distinct(Variables())
  {
    var vs := Variables();
    forall k, k' | 0 <= k < k' < 12
      ensures vs[k] != vs[k']
    {
      if k / 3 == k' / 3 {
        assert k % 3 != k' % 3;
      }
    }
  }

  /** `v2i`: the variable at position `j` gets id `j + 1`; every vertex with
      every colour has an id. */
  function V2I(): (m: map<Cell, nat>)
    ensures forall cell :: cell in m <==> 1 <= cell.1 <= 3
  {
    VariablesDistinct();
    forall cell ensures cell in Variables() <==> 1 <= cell.1 <= 3 {
      VariablesMember(cell);
    }
    Formula.V2I(Variables())
  }

  /** `i2v`, from ids back to (vertex, colour) pairs. */
  function I2V(): (m: map<nat, Cell>)
    ensures forall id :: id in m <==> 1 <= id <= 12
    ensures forall id | id in m :: m[id] == Variables()[id - 1]
  {
    Formula.I2V(Variables())
  }

  /** Vertex `v` with colour `c` has id `3 * Index(v) + c`, and `i2v` gives
      the pair back. */
  lemma Ids(v: Vertex, c: nat)
    requires 1 <= c <= 3
    ensures V2I()[(v, c)] == 3 * Index(v) + c
    ensures I2V()[3 * Index(v) + c] == (v, c)
  {
    VariablesDistinct();
    var i := Index(v);
    var k := 3 * i + c - 1;
    assert k / 3 == i && k % 3 == c - 1;
    assert Variables()[k] == (v, c);
    NumberingBijection(Variables());
  }

  /** Different ids name different pairs. */
  lemma I2VDistinct()
    ensures forall i, j | 1 <= i < j <= 12 :: I2V()[i] != I2V()[j]
  {
    VariablesDistinct();
    forall i, j | 1 <= i < j <= 12
      ensures I2V()[i] != I2V()[j]
    {
      assert I2V()[i] == Variables()[i - 1] && I2V()[j] == Variables()[j - 1];
    }
  }

  // ---------------------------------------------------------------------------
  // Clauses

  /** `[v2i[i, j] for j in Colors]`: the vertex has some colour. */
  function ColourClause(v: Vertex): Clause<Cell> {
    seq(|Colours|, j requires 0 <= j < |Colours| => Pos((v, Colours[j])))
  }

  /** `[-v2i[i, j1], -v2i[i, j2]]` for each pair of colours: not both. */
  function PairClauses(v: Vertex): seq<Clause<Cell>> {
    seq(|ColourPairs|, p requires 0 <= p < |ColourPairs| =>
      [Neg((v, ColourPairs[p].0)), Neg((v, ColourPairs[p].1))])
  }

  /** `[-v2i[v1, k], -v2i[v2, k]]` for each edge: its ends are not both `k`. */
  function EdgeClauses(k: nat): seq<Clause<Cell>> {
    seq(|Edges|, e requires 0 <= e < |Edges| => [Neg((Edges[e].0, k)), Neg((Edges[e].1, k))])
  }

  /** `clauses_atleastonecolor`, one clause per vertex. */
  function AtLeastOne(): seq<Clause<Cell>> {
    seq(|Vertices|, i requires 0 <= i < |Vertices| => ColourClause(Vertices[i]))
  }

  /** `clauses_atmostonecolor`: vertex by vertex, colour pair by colour pair. */
  function AtMostOne(): seq<Clause<Cell>> {
    FlatMap(Vertices, PairClauses)
  }

  /** `clauses_differentcolors`: colour by colour, edge by edge. */
  function DifferentColours(): seq<Clause<Cell>> {
    FlatMap(Colours, EdgeClauses)
  }

  /** `self.myClauses`: at least one colour, at most one colour, then the
      edge constraints; 28 clauses in all. */
  function Clauses(): (r: seq<Clause<Cell>>)
    ensures |r| == 28
  {
    FlatMapLength(Vertices, PairClauses, 3);
    FlatMapLength(Colours, EdgeClauses, 4);
    AtLeastOne() + AtMostOne() + DifferentColours()
  }

  /** Vertex `v` has at least one of the three colours. */
  predicate Coloured(a: Cell -> bool, v: Vertex) {
    exists c | 1 <= c <= 3 :: a((v, c))
  }

  /** Vertex `v` has at most one of the three colours. */
  predicate AtMostOneColour(a: Cell -> bool, v: Vertex) {
    forall c, c' | 1 <= c < c' <= 3 :: !(a((v, c)) && a((v, c')))
  }

  /** Vertices `u` and `w` share none of the three colours. */
  predicate Differ(a: Cell -> bool, u: Vertex, w: Vertex) {
    forall c | 1 <= c <= 3 :: !(a((u, c)) && a((w, c)))
  }

  /** A proper 3-colouring: every vertex has exactly one colour, and the
      ends of every edge differ. */
  predicate Proper(a: Cell -> bool) {
    (forall v: Vertex :: Coloured(a, v) && AtMostOneColour(a, v)) &&
    forall e | e in Edges :: Differ(a, e.0, e.1)
  }

  lemma ColourClauseHolds(a: Cell -> bool, v: Vertex)
    ensures Satisfies(a, ColourClause(v)) <==> Coloured(a, v)
  {
    var cl := ColourClause(v);
    if Coloured(a, v) {
      var c :| 1 <= c <= 3 && a((v, c));
      assert Holds(a, cl[c - 1]);
    }
    if Satisfies(a, cl) {
      var j :| 0 <= j < |cl| && Holds(a, cl[j]);
      assert a((v, j + 1));
    }
  }

  lemma PairClausesHold(a: Cell -> bool, v: Vertex)
    ensures SatisfiesAll(a, PairClauses(v)) <==> AtMostOneColour(a, v)
  {
    var cs := PairClauses(v);
    forall p | 0 <= p < 3
      ensures Satisfies(a, cs[p]) <==> !(a((v, ColourPairs[p].0)) && a((v, ColourPairs[p].1)))
    {
      if !a((v, ColourPairs[p].1)) {
        assert Holds(a, cs[p][1]);
      }
      if !a((v, ColourPairs[p].0)) {
        assert Holds(a, cs[p][0]);
      }
    }
    forall c, c' | 1 <= c < c' <= 3
      ensures exists p | 0 <= p < 3 :: ColourPairs[p] == (c, c')
    {
      var p := if c == 1 then c' - 2 else 2;
      assert ColourPairs[p] == (c, c');
    }
  }

  /** No edge has both ends coloured `k`. */
  predicate EdgesAvoid(a: Cell -> bool, k: nat) {
    forall e | e in Edges :: !(a((e.0, k)) && a((e.1, k)))
  }

  lemma EdgeClausesHold(a: Cell -> bool, k: nat)
    ensures SatisfiesAll(a, EdgeClauses(k)) <==> EdgesAvoid(a, k)
  {
    var cs := EdgeClauses(k);
    forall e | 0 <= e < 4
      ensures Satisfies(a, cs[e]) <==> !(a((Edges[e].0, k)) && a((Edges[e].1, k)))
    {
      if !a((Edges[e].1, k)) {
        assert Holds(a, cs[e][1]);
      }
      if !a((Edges[e].0, k)) {
        assert Holds(a, cs[e][0]);
      }
    }
  }

  lemma AtLeastOneHolds(a: Cell -> bool)
    ensures SatisfiesAll(a, AtLeastOne()) <==> forall v: Vertex :: Coloured(a, v)
  {
    var cs := AtLeastOne();
    forall i | 0 <= i < 4
      ensures Satisfies(a, cs[i]) <==> Coloured(a, Vertices[i])
    {
      ColourClauseHolds(a, Vertices[i]);
    }
    forall v: Vertex
      ensures Satisfies(a, cs[Index(v)]) <==> Coloured(a, v)
    {
    }
  }

  lemma AtMostOneHolds(a: Cell -> bool)
    ensures SatisfiesAll(a, AtMostOne()) <==> forall v: Vertex :: AtMostOneColour(a, v)
  {
    SatisfiesAllFlatMap(a, Vertices, PairClauses);
    forall v: Vertex
      ensures v in Vertices
      ensures SatisfiesAll(a, PairClauses(v)) <==> AtMostOneColour(a, v)
    {
      assert Vertices[Index(v)] == v;
      PairClausesHold(a, v);
    }
  }

  lemma DifferentColoursHolds(a: Cell -> bool)
    ensures SatisfiesAll(a, DifferentColours()) <==> forall e | e in Edges :: Differ(a, e.0, e.1)
  {
    SatisfiesAllFlatMap(a, Colours, EdgeClauses);
    forall k | k in Colours
      ensures SatisfiesAll(a, EdgeClauses(k)) <==> EdgesAvoid(a, k)
    {
      EdgeClausesHold(a, k);
    }
    AvoidingMeansDiffer(a);
  }

  /** Every colour is avoided by every edge exactly when every edge's ends differ. */
  lemma AvoidingMeansDiffer(a: Cell -> bool)
    ensures (forall k | k in Colours :: EdgesAvoid(a, k)) <==> forall e | e in Edges :: Differ(a, e.0, e.1)
  {
    if forall k | k in Colours :: EdgesAvoid(a, k) {
      forall e | e in Edges
        ensures Differ(a, e.0, e.1)
      {
        forall c | 1 <= c <= 3
          ensures !(a((e.0, c)) && a((e.1, c)))
        {
          assert c in Colours && EdgesAvoid(a, c);
        }
      }
    }
    if forall e | e in Edges :: Differ(a, e.0, e.1) {
      forall k | k in Colours
        ensures EdgesAvoid(a, k)
      {
        forall e | e in Edges
          ensures !(a((e.0, k)) && a((e.1, k)))
        {
          assert Differ(a, e.0, e.1);
        }
      }
    }
  }

  /** The clauses hold exactly under the proper colourings. */
  lemma ClausesMeanProper(a: Cell -> bool)
    ensures SatisfiesAll(a, Clauses()) <==> Proper(a)
  {
    AtLeastOneHolds(a);
    AtMostOneHolds(a);
    DifferentColoursHolds(a);
    SatisfiesAllConcat(a, AtLeastOne(), AtMostOne());
    SatisfiesAllConcat(a, AtLeastOne() + AtMostOne(), DifferentColours());
  }

  /** A and D get colour 1, B colour 2, C colour 3. */
  function ExampleColour(v: Vertex): nat {
    match v
    case A => 1
    case B => 2
    case C => 3
    case D => 1
  }

  /** The graph is 3-colourable, so the clauses are satisfiable. */
  lemma ProperExample()
    ensures Proper((cell: Cell) => cell.1 == ExampleColour(cell.0))
    ensures SatisfiesAll((cell: Cell) => cell.1 == ExampleColour(cell.0), Clauses())
  {
    var a := (cell: Cell) => cell.1 == ExampleColour(cell.0);
    forall v: Vertex
      ensures Coloured(a, v)
    {
      assert a((v, ExampleColour(v)));
    }
    ClausesMeanProper(a);
  }

  // ---------------------------------------------------------------------------
  // The CNF text and the solver's answer

  /** Every literal of every clause carries one of the three colours, so
      every literal is numbered. */
  lemma ClausesCovered()
    ensures forall j | 0 <= j < |Clauses()| :: Covered(V2I(), Clauses()[j])
  {
    var cs := Clauses();
    FamiliesInColours();
    forall j | 0 <= j < |cs|
      ensures Covered(V2I(), cs[j])
    {
      ClauseFamily(j);
      InColoursCovered(cs[j]);
    }
  }

  /** Every literal of the clause carries one of the three colours. */
  predicate InColours(c: Clause<Cell>) {
    forall j | 0 <= j < |c| :: 1 <= c[j].v.1 <= 3
  }

  lemma InColoursCovered(c: Clause<Cell>)
    requires InColours(c)
    ensures Covered(V2I(), c)
  {
  }

  /** Clause `j` comes from the family its position falls in. */
  lemma ClauseFamily(j: nat)
    requires j < 28
    ensures j < 4 ==> Clauses()[j] == ColourClause(Vertices[j])
    ensures 4 <= j < 16 ==> Clauses()[j] in AtMostOne()
    ensures 16 <= j ==> Clauses()[j] in DifferentColours()
  {
    var cs := Clauses();
    if j < 4 {
      assert cs[j] == AtLeastOne()[j];
    } else if j < 16 {
      assert cs[j] == AtMostOne()[j - 4];
    } else {
      assert cs[j] == DifferentColours()[j - 16];
    }
  }

  /** Every clause of every family mentions only the three colours. */
  lemma FamiliesInColours()
    ensures forall v: Vertex :: InColours(ColourClause(v))
    ensures forall c | c in AtMostOne() :: InColours(c)
    ensures forall c | c in DifferentColours() :: InColours(c)
  {
    FlatMapMember(Vertices, PairClauses);
    FlatMapMember(Colours, EdgeClauses);
  }

  /** `myClauses` as the lists of signed ids the solver reads. */
  function Encoded(): (r: seq<seq<int>>)
    ensures |r| == 28
    ensures forall j | 0 <= j < |r| :: NonZero(r[j])
  {
    ClausesCovered();
    var cs := Clauses();
    var r := EncodeClauses(V2I(), cs);
    forall j | 0 <= j < |r| ensures NonZero(r[j]) {
      VariablesDistinct();
      EncodedLiteralRange(Variables(), cs[j]);
    }
    r
  }

  /** The first four numbered clauses are `[3i+1, 3i+2, 3i+3]`, the ids of
      the three colours of the `i`-th vertex. */
  lemma EncodedColourClauses(v: Vertex)
    ensures Encoded()[Index(v)] == [3 * Index(v) + 1, 3 * Index(v) + 2, 3 * Index(v) + 3]
  {
    ClausesCovered();
    ClauseFamily(Index(v));
    EncodedColourClause(v);
  }

  lemma EncodedColourClause(v: Vertex)
    ensures Covered(V2I(), ColourClause(v))
    ensures EncodeClause(V2I(), ColourClause(v)) == [3 * Index(v) + 1, 3 * Index(v) + 2, 3 * Index(v) + 3]
  {
    ColourLit(v, 0);
    EncodedColourLit(v, 0);
    EncodedColourLit(v, 1);
    EncodedColourLit(v, 2);
    ThreeItems(EncodeClause(V2I(), ColourClause(v)));
  }

  lemma EncodedColourLit(v: Vertex, j: nat)
    requires j < 3
    ensures Covered(V2I(), ColourClause(v))
    ensures EncodeClause(V2I(), ColourClause(v))[j] == 3 * Index(v) + j + 1
  {
    var cl := ColourClause(v);
    ColourLit(v, j);
    InColoursCovered(cl);
    Ids(v, j + 1);
  }

  lemma ColourLit(v: Vertex, j: nat)
    requires j < 3
    ensures InColours(ColourClause(v)) && |ColourClause(v)| == 3
    ensures ColourClause(v)[j] == Pos((v, j + 1))
  {
  }

  /** `myDimacs`: `_clauses_to_dimacs(myClauses, len(variables))`. */
  function CnfText(): string {
    Cnf(Encoded(), 12)
  }

  /** The text declares 12 variables and reads back as the 28 clauses in order. */
  lemma CnfTextReads()
    ensures Read(CnfText(), "cnf", false) == Some(DimacsFile(12, [], Encoded()))
  {
    CnfRoundTrip(Encoded(), 12);
  }

  /** Each numbered clause names, through `i2v`, the clause it came from. */
  lemma EncodedDecodes(j: nat)
    requires j < 28
    ensures DecodeClause(I2V(), Encoded()[j]) == Some(Clauses()[j])
  {
    ClausesCovered();
    VariablesDistinct();
    ClauseRoundTrip(Variables(), Clauses()[j]);
  }

  /** The colouring 12 truth values for the ids `1..12` describe. */
  function Reading(vals: seq<bool>): (a: Cell -> bool)
    requires |vals| == 12
    ensures forall v: Vertex, c | 1 <= c <= 3 :: a((v, c)) == vals[3 * Index(v) + c - 1]
  {
    VariablesDistinct();
    var a := Lift(Variables(), vals);
    forall v: Vertex, c | 1 <= c <= 3
      ensures a((v, c)) == vals[3 * Index(v) + c - 1]
    {
      assert Variables()[3 * Index(v) + c - 1] == (v, c);
      LiftAt(Variables(), vals, (v, c));
    }
    a
  }

  /** The solver's 12 truth values satisfy the numbered clauses exactly when
      the colouring they describe is proper. */
  lemma IdsMeanProper(vals: seq<bool>)
    requires |vals| == 12
    ensures (forall j | 0 <= j < 28 :: SatisfiesIds(vals, Encoded()[j])) <==> Proper(Reading(vals))
  {
    VariablesDistinct();
    ClausesCovered();
    var a := Reading(vals);
    forall j | 0 <= j < 28
      ensures SatisfiesIds(vals, Encoded()[j]) <==> Satisfies(a, Clauses()[j])
    {
      EncodeSatisfies(Variables(), vals, Clauses()[j]);
    }
    ClausesMeanProper(a);
  }

  /** `solve` without the printing and the solution file: the solver's
      captured output read back through `i2v`. Every pair in the model is a
      vertex with one of the three colours. */
  function Solve(stdout: string): (r: Result<SatOutput<Cell>, ParseError>)
    ensures r.Success? ==> forall j | 0 <= j < |r.value.model| :: 1 <= r.value.model[j].0.1 <= 3
  {
    var r := ParseSat(I2V(), stdout);
    if r.Success? then
      forall j | 0 <= j < |r.value.model|
        ensures 1 <= r.value.model[j].0.1 <= 3
      {
        assert r.value.model[j].0 in Firsts(r.value.model);
        var id :| id in I2V() && I2V()[id] == r.value.model[j].0;
        VariablesMember(r.value.model[j].0);
      }
      r
    else r
  }

  /** A report of a satisfying assignment listing every id once, in order,
      reads back as every (vertex, colour) pair, in `variables` order, with
      its truth value. */
  lemma SolveReport(vals: seq<bool>, l0: string, rest: seq<string>)
    requires |vals| == 12
    requires NoLineBreak(l0) && NoLineBreaks(rest)
    ensures Solve(Unlines([l0, "s SATISFIABLE", SatValueLine(vals)] + rest))
            == Success(SatOutput(true, SignedIds(vals), seq(12, k requires 0 <= k < 12 => (Variables()[k], vals[k]))))
  {
    I2VDistinct();
    SatRoundTrip(I2V(), vals, l0, rest);
    ListingVariables(vals);
  }

  lemma ListingVariables(vals: seq<bool>)
    requires |vals| == 12
    ensures Listing(I2V(), vals) == seq(12, k requires 0 <= k < 12 => (Variables()[k], vals[k]))
  {
    forall k | 0 <= k < 12
      ensures Listing(I2V(), vals)[k] == (Variables()[k], vals[k])
    {
    }
  }
}
