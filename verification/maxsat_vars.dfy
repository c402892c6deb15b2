/** The propositional variables of the MaxSAT encoding and their numbering
    (Inv-NCS/maxsat.py lines 46-73):
      - `x[i, h, k]`: mark `k` validates criterion `i` against profile `h`;
      - `y[B, h]`: coalition `B` is sufficient at level `h`;
      - `z[u]`: instance `u` is correctly classified.
    Ids are drawn from one counter, `x` first, then `y`, then `z`, so the id of
    a variable is one more than its position in `Vars`. */
module MaxSatVars {
  import opened Seqs
  import opened Coalitions
  import opened Dataset
  import Formula

  datatype Prop =
    | X(crit: nat, level: nat, mark: real)
    | Y(coal: seq<nat>, level: nat)
    | Z(inst: nat)

  /** What the dictionaries `x`, `y` and `z` are keyed by: an observed mark of
      a criterion at a level, a coalition at a level, an instance. */
  predicate IsVar(d: Data, v: Prop)
    requires WellFormed(d)
  {
    match v
    case X(i, h, k) => i < d.n && 1 <= h < P(d) && k in Column(d, i)
    case Y(b, h) => IsCoalition(b, d.n) && 1 <= h < P(d)
    case Z(u) => u < |d.rows|
  }

  /** `for k in X[i]` at a fixed criterion and level: one candidate per row. */
  function XRow(d: Data, i: nat, h: nat): (r: seq<Prop>)
    requires WellFormed(d) && i < d.n
    ensures |r| == |d.rows|
    ensures forall u | 0 <= u < |r| :: r[u] == X(i, h, Mark(d, i, u))
  {
    seq(|d.rows|, u requires 0 <= u < |d.rows| => X(i, h, Mark(d, i, u)))
  }

  function XCriterion(d: Data, i: nat): seq<Prop>
    requires WellFormed(d) && i < d.n
  {
    FlatMap(Levels(d), (h: nat) => XRow(d, i, h))
  }

  /** The keys the triple loop `for i / for h / for k in X[i]` tries to insert
      into `x`, in visiting order and with repetitions. */
  function XVisits(d: Data): seq<Prop>
    requires WellFormed(d)
  {
    FlatMap(Range(0, d.n), (i: nat) requires WellFormed(d) && i < d.n => XCriterion(d, i))
  }

  /** The keys of `x`: the visits, each kept the first time it is seen. */
  function XKeys(d: Data): seq<Prop>
    requires WellFormed(d)
  {
    FirstSeen(XVisits(d), [])
  }

  /** The keys of `y` for one coalition: `(B, h)` for each level. */
  function YRow(d: Data, b: seq<nat>): (r: seq<Prop>)
    requires WellFormed(d)
    ensures |r| == P(d) - 1
    ensures forall j | 0 <= j < |r| :: r[j] == Y(b, j + 1)
  {
    seq(P(d) - 1, j requires 0 <= j < P(d) - 1 => Y(b, j + 1))
  }

  /** The keys of `y`, coalitions in enumeration order, levels inside. */
  function YKeys(d: Data): seq<Prop>
    requires WellFormed(d)
  {
    FlatMap(AllCoalitions(d.n), (b: seq<nat>) => YRow(d, b))
  }

  /** The keys of `z`: the row positions in order. */
  function ZKeys(d: Data): (r: seq<Prop>)
    ensures |r| == |d.rows|
    ensures forall u | 0 <= u < |r| :: r[u] == Z(u)
  {
    seq(|d.rows|, u requires 0 <= u < |d.rows| => Z(u))
  }

  /** `variables = list(x.keys()) + list(y.keys()) + list(z.keys())`. */
  function Vars(d: Data): seq<Prop>
    requires WellFormed(d)
  {
    XKeys(d) + YKeys(d) + ZKeys(d)
  }

  lemma XVisitsMember(d: Data, v: Prop)
    requires WellFormed(d)
    ensures v in XVisits(d) <==> v.X? && IsVar(d, v)
  {
    FlatMapMember(Range(0, d.n), (i: nat) requires WellFormed(d) && i < d.n => XCriterion(d, i));
    if v in XVisits(d) {
      var i :| i in Range(0, d.n) && v in XCriterion(d, i);
      XCriterionMember(d, i, v);
    }
    if v.X? && IsVar(d, v) {
      XCriterionMember(d, v.crit, v);
      assert v.crit in Range(0, d.n);
    }
  }

  /** The visits for criterion `i` are its keys at every level. */
  lemma XCriterionMember(d: Data, i: nat, v: Prop)
    requires WellFormed(d) && i < d.n
    ensures v in XCriterion(d, i) <==> v.X? && v.crit == i && IsVar(d, v)
  {
    FlatMapMember(Levels(d), (h: nat) => XRow(d, i, h));
    if v in XCriterion(d, i) {
      var h :| h in Levels(d) && v in XRow(d, i, h);
      var u :| 0 <= u < |d.rows| && XRow(d, i, h)[u] == v;
      assert Column(d, i)[u] == v.mark;
    }
    if v.X? && v.crit == i && IsVar(d, v) {
      var u :| 0 <= u < |d.rows| && Column(d, i)[u] == v.mark;
      assert XRow(d, i, v.level)[u] == v;
      assert v.level in Levels(d);
    }
  }

  /** `x` holds exactly one key per criterion, level and distinct observed mark. */
  lemma XKeysMember(d: Data, v: Prop)
    requires WellFormed(d)
    ensures v in XKeys(d) <==> v.X? && IsVar(d, v)
  {
    FirstSeenMember(XVisits(d), []);
    XVisitsMember(d, v);
  }

  lemma YKeysMember(d: Data, v: Prop)
    requires WellFormed(d)
    ensures v in YKeys(d) <==> v.Y? && IsVar(d, v)
  {
    FlatMapMember(AllCoalitions(d.n), (b: seq<nat>) => YRow(d, b));
    if v in YKeys(d) {
      var b :| b in AllCoalitions(d.n) && v in YRow(d, b);
      AllCoalitionsMember(d.n, b);
    }
    if v.Y? && IsVar(d, v) {
      AllCoalitionsMember(d.n, v.coal);
      assert YRow(d, v.coal)[v.level - 1] == v;
    }
  }

  lemma YKeysDistinct(d: Data)
    requires WellFormed(d)
    ensures Distinct(YKeys(d))
  {
    var f := (b: seq<nat>) => YRow(d, b);
    AllCoalitionsDistinct(d.n);
    forall b, b', v | b in AllCoalitions(d.n) && b' in AllCoalitions(d.n) && v in f(b) && v in f(b')
      ensures b == b'
    {
    }
    FlatMapDistinct(AllCoalitions(d.n), f);
  }

  /** The variables are pairwise different, so `v2i` and `i2v` are well defined. */
  lemma VarsDistinct(d: Data)
    requires WellFormed(d)
    ensures Distinct(Vars(d))
  {
    YKeysDistinct(d);
    FirstSeenDistinct(XVisits(d), []);
    forall v | v in XKeys(d)
      ensures v !in YKeys(d)
    {
      XKeysMember(d, v);
      YKeysMember(d, v);
    }
    DistinctConcat(XKeys(d), YKeys(d));
    forall v | v in XKeys(d) + YKeys(d)
      ensures v !in ZKeys(d)
    {
      XKeysMember(d, v);
      YKeysMember(d, v);
    }
    DistinctConcat(XKeys(d) + YKeys(d), ZKeys(d));
  }

  /** The variables are exactly the propositions the encoder can mention. */
  lemma VarsMember(d: Data, v: Prop)
    requires WellFormed(d)
    ensures v in Vars(d) <==> IsVar(d, v)
  {
    XKeysMember(d, v);
    YKeysMember(d, v);
  }

  /** The `j`-th variable, read off the block it falls in. */
  lemma VarsAt(d: Data, j: nat)
    requires WellFormed(d) && j < |Vars(d)|
    ensures j < |XKeys(d)| ==> Vars(d)[j] == XKeys(d)[j]
    ensures |XKeys(d)| <= j < |XKeys(d)| + |YKeys(d)| ==> Vars(d)[j] == YKeys(d)[j - |XKeys(d)|]
    ensures |XKeys(d)| + |YKeys(d)| <= j ==> Vars(d)[j] == Z(j - |XKeys(d)| - |YKeys(d)|)
  {
  }

  /** Variables come in three blocks: every `x` before every `y` before every `z`. */
  lemma VarsBlocks(d: Data, j: nat)
    requires WellFormed(d) && j < |Vars(d)|
    ensures Vars(d)[j].X? <==> j < |XKeys(d)|
    ensures Vars(d)[j].Y? <==> |XKeys(d)| <= j < |XKeys(d)| + |YKeys(d)|
    ensures Vars(d)[j].Z? <==> |XKeys(d)| + |YKeys(d)| <= j
  {
    var v := Vars(d)[j];
    VarsAt(d, j);
    XKeysMember(d, v);
    YKeysMember(d, v);
  }

  /** `|YKeys| = |combinations| * (p - 1)`. */
  lemma YKeysLength(d: Data)
    requires WellFormed(d)
    ensures |YKeys(d)| == |AllCoalitions(d.n)| * (P(d) - 1)
  {
    FlatMapLength(AllCoalitions(d.n), (b: seq<nat>) => YRow(d, b), P(d) - 1);
  }

  /** At most one `x` key per criterion, level and row. */
  lemma XKeysLength(d: Data)
    requires WellFormed(d)
    ensures |XKeys(d)| <= d.n * (|d.rows| * (P(d) - 1))
  {
    forall i | i in Range(0, d.n)
      ensures |XCriterion(d, i)| == |d.rows| * (P(d) - 1)
    {
      FlatMapLength(Levels(d), (h: nat) => XRow(d, i, h), |d.rows|);
      assert |Levels(d)| * |d.rows| == |d.rows| * (P(d) - 1);
    }
    FlatMapLength(Range(0, d.n), (i: nat) requires WellFormed(d) && i < d.n => XCriterion(d, i), |d.rows| * (P(d) - 1));
  }

  /** The counter `range(1, X.size*(p-1) + len(combinations)*(p-1) + m + 1)`
      holds at least as many ids as there are variables, so `next(counter)`
      never raises `StopIteration`. */
  lemma CounterSuffices(d: Data)
    requires WellFormed(d)
    ensures |Vars(d)| <= d.n * |d.rows| * (P(d) - 1) + |AllCoalitions(d.n)| * (P(d) - 1) + |d.rows|
  {
    XKeysLength(d);
    YKeysLength(d);
    MulAssoc(d.n, |d.rows|, P(d) - 1);
  }

  /** Kept apart so that the nonlinear step is proved without the rest of
      the context. */
  lemma MulAssoc(a: nat, b: nat, c: nat)
    ensures a * (b * c) == a * b * c
  {
  }

  /** `v2i = {**x, **y, **z}`: each variable's id. */
  function V2I(d: Data): (m: map<Prop, nat>)
    requires WellFormed(d)
    ensures forall v :: v in m <==> IsVar(d, v)
    ensures forall v {:trigger m[v]} | v in m :: 1 <= m[v] <= |Vars(d)| && Vars(d)[m[v] - 1] == v
  {
    VarsDistinct(d);
    forall v ensures v in Vars(d) <==> IsVar(d, v) {
      VarsMember(d, v);
    }
    Formula.V2I(Vars(d))
  }

  /** `i2v`, from ids back to variables. */
  function I2V(d: Data): (m: map<nat, Prop>)
    requires WellFormed(d)
    ensures forall i :: i in m <==> 1 <= i <= |Vars(d)|
    ensures forall i | i in m :: m[i] == Vars(d)[i - 1]
  {
    Formula.I2V(Vars(d))
  }

  /** Every id names a variable of the model. */
  lemma I2VNamesVars(d: Data, i: nat)
    requires WellFormed(d) && i in I2V(d)
    ensures IsVar(d, I2V(d)[i])
  {
    VarsMember(d, Vars(d)[i - 1]);
  }

  /** Different ids name different variables. */
  lemma I2VDistinct(d: Data)
    requires WellFormed(d)
    ensures forall i, j | 1 <= i < j <= |Vars(d)| :: I2V(d)[i] != I2V(d)[j]
  {
    var vars, m := Vars(d), I2V(d);
    VarsDistinct(d);
    assert Distinct(vars);
    forall i, j | 1 <= i < j <= |vars|
      ensures m[i] != m[j]
    {
      assert m[i] == vars[i - 1] && m[j] == vars[j - 1];
    }
  }

  /** The ids form a bijection between the variables and `1..|Vars|`, and
      `i2v` inverts `v2i` both ways. */
  lemma Numbering(d: Data)
    requires WellFormed(d)
    ensures forall v | v in V2I(d) :: V2I(d)[v] in I2V(d) && I2V(d)[V2I(d)[v]] == v
    ensures forall i | i in I2V(d) :: I2V(d)[i] in V2I(d) && V2I(d)[I2V(d)[i]] == i
  {
    VarsDistinct(d);
    Formula.NumberingBijection(Vars(d));
  }

  /** All `x` ids come first, then the `y` ids, then the `z` ids. */
  lemma NumberingBlocks(d: Data, id: nat)
    requires WellFormed(d) && id in I2V(d)
    ensures I2V(d)[id].X? <==> id <= |XKeys(d)|
    ensures I2V(d)[id].Y? <==> |XKeys(d)| < id <= |XKeys(d)| + |YKeys(d)|
    ensures I2V(d)[id].Z? <==> |XKeys(d)| + |YKeys(d)| < id
  {
    VarsBlocks(d, id - 1);
  }
}
