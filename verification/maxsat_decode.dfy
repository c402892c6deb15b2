/** Reading an NCS model back from the solver's assignment, the second half of
    `MaxSATSolver.solve` (Inv-NCS/maxsat.py lines 136-162). The assignment is
    the ordered dictionary the output parser produced; it is cut by position
    into the `x` part (the first `len(x)` entries), the `y` part (the next
    `len(y)`) and the `z` part (the rest), exactly as the Python slices it. */
module MaxSatDecode {
  import opened Wrappers
  import opened Seqs
  import opened Coalitions
  import opened Dataset
  import opened MaxSatVars
  import opened SolverOutput
  import opened MaxSatClauses

  /** Unpacking `criterion, h, mark = var` or `B, h = var` fails when the
      entry at that position is a variable of another kind. */
  datatype DecodeError =
    | NotAMark(position: nat)
    | NotACoalition(position: nat)

  // ---------------------------------------------------------------------------
  // Profile intervals

  /** The interval `[lower, upper]` a profile value may take on one criterion. */
  datatype Interval = Interval(lower: real, upper: real)

  /** The bounds every interval starts from, `[0, 20]`. */
  const Floor: real := 0.0
  const Ceiling: real := 20.0

  function Min(a: real, b: real): real {
    if a <= b then a else b
  }

  function Max(a: real, b: real): real {
    if a >= b then a else b
  }

  /** `profiles_intervals[h - 1][i]` exists for every level and criterion. */
  predicate Shaped(d: Data, pr: seq<seq<Interval>>)
    requires WellFormed(d)
  {
    |pr| == P(d) - 1 && forall h | 0 <= h < |pr| :: |pr[h]| == d.n
  }

  /** `[[[0, 20] for _ in range(n)] for _ in range(p - 1)]`. */
  function Initial(d: Data): (r: seq<seq<Interval>>)
    requires WellFormed(d)
    ensures Shaped(d, r)
    ensures forall h, i | 0 <= h < |r| && 0 <= i < |r[h]| :: r[h][i] == Interval(Floor, Ceiling)
  {
    seq(P(d) - 1, _ => seq(d.n, _ => Interval(Floor, Ceiling)))
  }

  /** One step of the loop: a validating mark lowers the upper bound to it,
      a non-validating mark raises the lower bound to it. */
  function Narrow(iv: Interval, validated: bool, mark: real): (r: Interval)
    ensures validated ==> r.lower == iv.lower && r.upper <= iv.upper && r.upper <= mark
    ensures !validated ==> r.upper == iv.upper && r.lower >= iv.lower && r.lower >= mark
    ensures r.lower == iv.lower || r.lower == mark
    ensures r.upper == iv.upper || r.upper == mark
  {
    if validated then Interval(iv.lower, Min(iv.upper, mark))
    else Interval(Max(iv.lower, mark), iv.upper)
  }

  /** `v` is a variable `x[i, h, k]` for some mark `k`. */
  predicate Names(v: Prop, i: nat, h: nat) {
    v.X? && v.crit == i && v.level == h
  }

  /** `upper` is the least mark reported as validating criterion `i` at level
      `h`, or 20 when that is smaller or no mark is. */
  predicate UpperIsLeast(xs: Dict<Prop>, i: nat, h: nat, upper: real) {
    upper <= Ceiling &&
    (forall j | 0 <= j < |xs| && xs[j].1 && Names(xs[j].0, i, h) :: upper <= xs[j].0.mark) &&
    (upper == Ceiling || exists j | 0 <= j < |xs| && xs[j].1 && Names(xs[j].0, i, h) :: upper == xs[j].0.mark)
  }

  /** `lower` is the greatest mark reported as not validating criterion `i`
      at level `h`, or 0 when that is greater or no mark is. */
  predicate LowerIsGreatest(xs: Dict<Prop>, i: nat, h: nat, lower: real) {
    lower >= Floor &&
    (forall j | 0 <= j < |xs| && !xs[j].1 && Names(xs[j].0, i, h) :: lower >= xs[j].0.mark) &&
    (lower == Floor || exists j | 0 <= j < |xs| && !xs[j].1 && Names(xs[j].0, i, h) :: lower == xs[j].0.mark)
  }

  predicate Tight(xs: Dict<Prop>, i: nat, h: nat, iv: Interval) {
    UpperIsLeast(xs, i, h, iv.upper) && LowerIsGreatest(xs, i, h, iv.lower)
  }

  /** Processing one more entry keeps every interval tight. */
  lemma StepTight(xs: Dict<Prop>, e: (Prop, bool), i: nat, h: nat, iv: Interval)
    requires Tight(xs, i, h, iv)
    ensures Tight(xs + [e], i, h, if Names(e.0, i, h) then Narrow(iv, e.1, e.0.mark) else iv)
  {
    var ys := xs + [e];
    assert forall j | 0 <= j < |xs| :: ys[j] == xs[j];
    assert ys[|xs|] == e;
    if Names(e.0, i, h) {
      var r := Narrow(iv, e.1, e.0.mark);
      if e.1 {
        if r.upper != Ceiling && r.upper != e.0.mark {
          var j :| 0 <= j < |xs| && xs[j].1 && Names(xs[j].0, i, h) && iv.upper == xs[j].0.mark;
          assert ys[j] == xs[j];
        }
      } else {
        if r.lower != Floor && r.lower != e.0.mark {
          var j :| 0 <= j < |xs| && !xs[j].1 && Names(xs[j].0, i, h) && iv.lower == xs[j].0.mark;
          assert ys[j] == xs[j];
        }
      }
    } else {
      if iv.upper != Ceiling {
        var j :| 0 <= j < |xs| && xs[j].1 && Names(xs[j].0, i, h) && iv.upper == xs[j].0.mark;
        assert ys[j] == xs[j];
      }
      if iv.lower != Floor {
        var j :| 0 <= j < |xs| && !xs[j].1 && Names(xs[j].0, i, h) && iv.lower == xs[j].0.mark;
        assert ys[j] == xs[j];
      }
    }
  }

  /** `profiles_intervals[h - 1][criterion]` narrowed by one entry. */
  function Record(pr: seq<seq<Interval>>, e: (Prop, bool)): (r: seq<seq<Interval>>)
    requires e.0.X? && 1 <= e.0.level <= |pr| && e.0.crit < |pr[e.0.level - 1]|
    ensures |r| == |pr| && forall h | 0 <= h < |pr| :: |r[h]| == |pr[h]|
  {
    var h, i := e.0.level - 1, e.0.crit;
    pr[h := pr[h][i := Narrow(pr[h][i], e.1, e.0.mark)]]
  }

  lemma RecordTight(pr: seq<seq<Interval>>, xs: Dict<Prop>, e: (Prop, bool))
    requires e.0.X? && 1 <= e.0.level <= |pr| && e.0.crit < |pr[e.0.level - 1]|
    requires forall h, i | 0 <= h < |pr| && 0 <= i < |pr[h]| :: Tight(xs, i, h + 1, pr[h][i])
    ensures forall h, i | 0 <= h < |pr| && 0 <= i < |pr[h]| :: Tight(xs + [e], i, h + 1, Record(pr, e)[h][i])
  {
    var r := Record(pr, e);
    forall h, i | 0 <= h < |pr| && 0 <= i < |pr[h]|
      ensures Tight(xs + [e], i, h + 1, r[h][i])
    {
      StepTight(xs, e, i, h + 1, pr[h][i]);
      RecordAt(pr, e, h, i);
    }
  }

  /** Recording an entry narrows the one interval it names. */
  lemma RecordAt(pr: seq<seq<Interval>>, e: (Prop, bool), h: nat, i: nat)
    requires e.0.X? && 1 <= e.0.level <= |pr| && e.0.crit < |pr[e.0.level - 1]|
    requires h < |pr| && i < |pr[h]|
    ensures Record(pr, e)[h][i] == if Names(e.0, i, h + 1) then Narrow(pr[h][i], e.1, e.0.mark) else pr[h][i]
  {
  }

  /** The loop over the `x` part: every interval ends up bounded by exactly
      the marks reported for its criterion and level. It fails at the first
      entry that is not an `x` variable. */
  function Intervals(d: Data, xs: Dict<Prop>): (r: Result<seq<seq<Interval>>, DecodeError>)
    requires WellFormed(d)
    requires forall j | 0 <= j < |xs| :: IsVar(d, xs[j].0)
    ensures r.Success? <==> forall j | 0 <= j < |xs| :: xs[j].0.X?
    ensures r.Failure? ==> r.error.NotAMark? && r.error.position < |xs| && !xs[r.error.position].0.X?
    ensures r.Success? ==> Shaped(d, r.value)
    ensures r.Success? ==>
              forall h, i | 0 <= h < |r.value| && 0 <= i < |r.value[h]| :: Tight(xs, i, h + 1, r.value[h][i])
    decreases |xs|
  {
    if |xs| == 0 then Success(Initial(d))
    else
      var p := xs[..|xs| - 1];
      var e := xs[|xs| - 1];
      assert xs == p + [e];
      assert forall j | 0 <= j < |p| :: p[j] == xs[j];
      var pr :- Intervals(d, p);
      if !e.0.X? then Failure(NotAMark(|xs| - 1))
      else
        assert IsVar(d, e.0);
        var r := Record(pr, e);
        RecordTight(pr, p, e);
        Success(r)
  }

  // ---------------------------------------------------------------------------
  // Sufficient coalitions

  /** `{B: [h, ...]}`: each coalition with the levels it was found sufficient
      at, coalitions in the order they were first found. */
  type Sufficient = seq<(seq<nat>, seq<nat>)>

  /** `sc.get(B)`. */
  function LevelsOf(sc: Sufficient, b: seq<nat>): Option<seq<nat>> {
    if |sc| == 0 then None
    else if sc[0].0 == b then Some(sc[0].1)
    else LevelsOf(sc[1..], b)
  }

  lemma {:induction false} LevelsOfPresent(sc: Sufficient, b: seq<nat>)
    ensures LevelsOf(sc, b).Some? <==> b in Firsts(sc)
  {
    if |sc| > 0 {
      LevelsOfPresent(sc[1..], b);
      assert Firsts(sc) == [sc[0].0] + Firsts(sc[1..]);
    }
  }

  /** `if B in sc: sc[B].append(h)` `else: sc[B] = [h]`. */
  function AddLevel(sc: Sufficient, b: seq<nat>, h: nat): (r: Sufficient)
    ensures b in Firsts(sc) ==> Firsts(r) == Firsts(sc)
    ensures b !in Firsts(sc) ==> Firsts(r) == Firsts(sc) + [b]
  {
    if |sc| == 0 then [(b, [h])]
    else
      assert sc == [sc[0]] + sc[1..];
      FirstsCons(sc[0], sc[1..]);
      if sc[0].0 == b then
        FirstsCons((b, sc[0].1 + [h]), sc[1..]);
        [(b, sc[0].1 + [h])] + sc[1..]
      else
        var rest := AddLevel(sc[1..], b, h);
        FirstsCons(sc[0], rest);
        [sc[0]] + rest
  }

  /** Appending a level changes the list of that coalition only. */
  lemma {:induction false} AddLevelLookup(sc: Sufficient, b: seq<nat>, h: nat, b': seq<nat>)
    ensures LevelsOf(AddLevel(sc, b, h), b') ==
              if b' != b then LevelsOf(sc, b')
              else if LevelsOf(sc, b).Some? then Some(LevelsOf(sc, b).value + [h])
              else Some([h])
  {
    if |sc| > 0 && sc[0].0 != b {
      AddLevelLookup(sc[1..], b, h, b');
      assert ([sc[0]] + AddLevel(sc[1..], b, h))[1..] == AddLevel(sc[1..], b, h);
    } else if |sc| > 0 {
      assert ([(b, sc[0].1 + [h])] + sc[1..])[1..] == sc[1..];
    }
  }

  /** `[h for (B', h), t in ys if t and B' == B]`: the levels at which `B`
      was reported sufficient, in report order. */
  function TrueLevels(ys: Dict<Prop>, b: seq<nat>): seq<nat> {
    if |ys| == 0 then []
    else
      var e := ys[|ys| - 1];
      TrueLevels(ys[..|ys| - 1], b) + (if e.1 && e.0.Y? && e.0.coal == b then [e.0.level] else [])
  }

  /** A level is listed for `B` exactly when `y[B, h]` was reported true. */
  lemma {:induction false} TrueLevelsMember(ys: Dict<Prop>, b: seq<nat>, h: nat)
    ensures h in TrueLevels(ys, b) <==> (Y(b, h), true) in ys
  {
    if |ys| > 0 {
      var p := ys[..|ys| - 1];
      var e := ys[|ys| - 1];
      TrueLevelsMember(p, b, h);
      assert ys == p + [e];
    }
  }

  /** What the dictionary should say about `B` after reading `ys`. */
  function Expected(ys: Dict<Prop>, b: seq<nat>): Option<seq<nat>> {
    if TrueLevels(ys, b) == [] then None else Some(TrueLevels(ys, b))
  }

  lemma SufficientStep(sc: Sufficient, p: Dict<Prop>, e: (Prop, bool), b: seq<nat>)
    requires e.0.Y?
    requires LevelsOf(sc, b) == Expected(p, b)
    ensures LevelsOf(if e.1 then AddLevel(sc, e.0.coal, e.0.level) else sc, b) == Expected(p + [e], b)
  {
    var ys := p + [e];
    assert ys[..|ys| - 1] == p;
    assert TrueLevels(ys, b) == TrueLevels(p, b) + (if e.1 && e.0.coal == b then [e.0.level] else []);
    if e.1 {
      AddLevelLookup(sc, e.0.coal, e.0.level, b);
      if e.0.coal == b {
        assert TrueLevels(ys, b) == TrueLevels(p, b) + [e.0.level];
        if TrueLevels(p, b) == [] {
          assert TrueLevels(ys, b) == [e.0.level];
        }
      } else {
        assert TrueLevels(ys, b) == TrueLevels(p, b);
      }
    } else {
      assert TrueLevels(ys, b) == TrueLevels(p, b);
    }
  }

  /** The loop over the `y` part: each coalition maps to the levels it was
      reported sufficient at, and coalitions never reported sufficient are
      absent. It fails at the first entry that is not a `y` variable. */
  function SufficientCoalitions(ys: Dict<Prop>): (r: Result<Sufficient, DecodeError>)
    ensures r.Success? <==> forall j | 0 <= j < |ys| :: ys[j].0.Y?
    ensures r.Failure? ==> r.error.NotACoalition? && r.error.position < |ys| && !ys[r.error.position].0.Y?
    ensures r.Success? ==> Distinct(Firsts(r.value))
    ensures r.Success? ==> forall b :: LevelsOf(r.value, b) == Expected(ys, b)
    decreases |ys|
  {
    if |ys| == 0 then Success([])
    else
      var p := ys[..|ys| - 1];
      var e := ys[|ys| - 1];
      assert ys == p + [e];
      assert forall j | 0 <= j < |p| :: p[j] == ys[j];
      var sc :- SufficientCoalitions(p);
      if !e.0.Y? then Failure(NotACoalition(|ys| - 1))
      else
        var r := if e.1 then AddLevel(sc, e.0.coal, e.0.level) else sc;
        assert Distinct(Firsts(r)) by {
          if e.1 && e.0.coal !in Firsts(sc) {
            DistinctConcat(Firsts(sc), [e.0.coal]);
          }
        }
        forall b
          ensures LevelsOf(r, b) == Expected(ys, b)
        {
          SufficientStep(sc, p, e, b);
        }
        Success(r)
  }

  // ---------------------------------------------------------------------------
  // Correctly and incorrectly classified instances

  /** The loop over the `z` part: the variables reported true, and those
      reported false, in report order. Every entry lands in exactly one list. */
  function Classified(zs: Dict<Prop>): (r: (seq<Prop>, seq<Prop>))
    ensures multiset(r.0) + multiset(r.1) == multiset(Firsts(zs))
    ensures forall v | v in r.0 :: (v, true) in zs
    ensures forall v | v in r.1 :: (v, false) in zs
    ensures forall j | 0 <= j < |zs| :: zs[j].0 in (if zs[j].1 then r.0 else r.1)
    ensures |r.0| + |r.1| == |zs|
    decreases |zs|
  {
    if |zs| == 0 then ([], [])
    else
      var p := zs[..|zs| - 1];
      var e := zs[|zs| - 1];
      assert zs == p + [e];
      assert Firsts(zs) == Firsts(p) + [e.0];
      var (c, ic) := Classified(p);
      if e.1 then (c + [e.0], ic) else (c, ic + [e.0])
  }

  // ---------------------------------------------------------------------------
  // The whole decoding

  datatype Solution = Solution(
    profiles: seq<seq<Interval>>,  // `profiles_intervals`
    sufficient: Sufficient,        // `sufficient_coalitions`
    correct: seq<Prop>,            // `correctly_classified`
    incorrect: seq<Prop>)          // `uncorrectly_classified`

  /** Python's `s[lo:hi]` for `0 <= lo <= hi`: indices past the end are clamped. */
  function Slice<T>(s: seq<T>, lo: nat, hi: nat): (r: seq<T>)
    requires lo <= hi
    ensures |r| == (if hi <= |s| then hi else |s|) - (if lo <= |s| then lo else |s|)
    ensures forall j | 0 <= j < |r| :: lo + j < |s| && r[j] == s[lo + j]
  {
    var a := if lo <= |s| then lo else |s|;
    var b := if hi <= |s| then hi else |s|;
    s[a..b]
  }

  /** The model read from an assignment: the `x` part gives the profile
      intervals, the `y` part the sufficient coalitions, the rest the split of
      the instances. Decoding fails exactly when an entry of the `x` part is
      not an `x` variable or one of the `y` part not a `y` variable. */
  function Decode(d: Data, vars: Dict<Prop>): (r: Result<Solution, DecodeError>)
    requires WellFormed(d)
    requires forall j | 0 <= j < |vars| :: IsVar(d, vars[j].0)
    ensures r.Success? <==>
              (forall j | 0 <= j < |vars| && j < |XKeys(d)| :: vars[j].0.X?) &&
              (forall j | |XKeys(d)| <= j < |vars| && j < |XKeys(d)| + |YKeys(d)| :: vars[j].0.Y?)
    ensures r.Success? ==> Shaped(d, r.value.profiles)
    ensures r.Success? ==>
              forall h, i | 0 <= h < |r.value.profiles| && 0 <= i < |r.value.profiles[h]| ::
                Tight(XSlice(d, vars), i, h + 1, r.value.profiles[h][i])
    ensures r.Success? ==> Distinct(Firsts(r.value.sufficient))
    ensures r.Success? ==> forall b :: LevelsOf(r.value.sufficient, b) == Expected(YSlice(d, vars), b)
    ensures r.Success? ==>
              multiset(r.value.correct) + multiset(r.value.incorrect) == multiset(Firsts(ZSlice(d, vars)))
    ensures r.Success? ==> forall v | v in r.value.correct :: (v, true) in ZSlice(d, vars)
    ensures r.Success? ==> forall v | v in r.value.incorrect :: (v, false) in ZSlice(d, vars)
    ensures r.Success? ==>
              |r.value.correct| + |r.value.incorrect| ==
              (if |vars| <= |XKeys(d)| + |YKeys(d)| then 0 else |vars| - |XKeys(d)| - |YKeys(d)|)
  {
    var nx, ny := |XKeys(d)|, |YKeys(d)|;
    var xs, ys, zs := XSlice(d, vars), YSlice(d, vars), ZSlice(d, vars);
    XSliceKinds(d, vars);
    YSliceKinds(d, vars);
    var pr, sc := Intervals(d, xs), SufficientCoalitions(ys);
    if pr.Failure? then Failure(pr.error)
    else if sc.Failure? then Failure(sc.error)
    else Success(Solution(pr.value, sc.value, Classified(zs).0, Classified(zs).1))
  }

  /** The `x` slice holds only `x` variables exactly when the positions it
      covers do. */
  lemma XSliceKinds(d: Data, vars: Dict<Prop>)
    requires WellFormed(d)
    requires forall j | 0 <= j < |vars| :: IsVar(d, vars[j].0)
    ensures (forall j | 0 <= j < |XSlice(d, vars)| :: XSlice(d, vars)[j].0.X?) <==>
            (forall j | 0 <= j < |vars| && j < |XKeys(d)| :: vars[j].0.X?)
  {
    var xs := XSlice(d, vars);
    assert forall j | 0 <= j < |vars| && j < |XKeys(d)| :: vars[j] == xs[j];
  }

  /** The `y` slice holds only `y` variables exactly when the positions it
      covers do. */
  lemma YSliceKinds(d: Data, vars: Dict<Prop>)
    requires WellFormed(d)
    ensures (forall j | 0 <= j < |YSlice(d, vars)| :: YSlice(d, vars)[j].0.Y?) <==>
            (forall j | |XKeys(d)| <= j < |vars| && j < |XKeys(d)| + |YKeys(d)| :: vars[j].0.Y?)
  {
    var nx, ny := |XKeys(d)|, |YKeys(d)|;
    var ys := Slice(vars, nx, nx + ny);
    assert YSlice(d, vars) == ys;
    forall j | nx <= j < |vars| && j < nx + ny
      ensures j - nx < |ys| && vars[j] == ys[j - nx]
    {
      SliceCovers(vars, nx, nx + ny, j);
    }
  }

  lemma SliceCovers<T>(s: seq<T>, lo: nat, hi: nat, j: nat)
    requires lo <= j < |s| && j < hi
    ensures j - lo < |Slice(s, lo, hi)| && Slice(s, lo, hi)[j - lo] == s[j]
  {
  }

  /** `list(variables.items())[:len(x)]`. */
  function XSlice(d: Data, vars: Dict<Prop>): (r: Dict<Prop>)
    requires WellFormed(d)
    requires forall j | 0 <= j < |vars| :: IsVar(d, vars[j].0)
    ensures |r| == if |vars| <= |XKeys(d)| then |vars| else |XKeys(d)|
    ensures forall j | 0 <= j < |r| :: r[j] == vars[j]
    ensures forall j | 0 <= j < |r| :: IsVar(d, r[j].0)
  {
    Slice(vars, 0, |XKeys(d)|)
  }

  /** `list(variables.items())[len(x):len(x) + len(y)]`. */
  function YSlice(d: Data, vars: Dict<Prop>): (r: Dict<Prop>)
    requires WellFormed(d)
    ensures |r| == (if |XKeys(d)| + |YKeys(d)| <= |vars| then |XKeys(d)| + |YKeys(d)| else |vars|) -
                   (if |XKeys(d)| <= |vars| then |XKeys(d)| else |vars|)
    ensures forall j | 0 <= j < |r| :: |XKeys(d)| + j < |vars| && r[j] == vars[|XKeys(d)| + j]
  {
    Slice(vars, |XKeys(d)|, |XKeys(d)| + |YKeys(d)|)
  }

  /** `list(variables.items())[len(x) + len(y):]`. */
  function ZSlice(d: Data, vars: Dict<Prop>): (r: Dict<Prop>)
    requires WellFormed(d)
    ensures |r| == if |vars| <= |XKeys(d)| + |YKeys(d)| then 0 else |vars| - |XKeys(d)| - |YKeys(d)|
    ensures forall j | 0 <= j < |r| :: r[j] == vars[|XKeys(d)| + |YKeys(d)| + j]
  {
    Slice(vars, |XKeys(d)| + |YKeys(d)|, |vars| + |XKeys(d)| + |YKeys(d)|)
  }

  // ---------------------------------------------------------------------------
  // Decoding a complete answer

  /** Every variable with the truth value `a` gives it, in id order: what the
      output parser yields when the solver reports every id once, in order. */
  function Answer(d: Data, a: Prop -> bool): (r: Dict<Prop>)
    requires WellFormed(d)
    ensures |r| == |Vars(d)|
    ensures forall j | 0 <= j < |r| :: r[j] == (Vars(d)[j], a(Vars(d)[j]))
    ensures forall j | 0 <= j < |r| :: IsVar(d, r[j].0)
  {
    forall j | 0 <= j < |Vars(d)| ensures IsVar(d, Vars(d)[j]) {
      VarsMember(d, Vars(d)[j]);
    }
    seq(|Vars(d)|, j requires 0 <= j < |Vars(d)| => (Vars(d)[j], a(Vars(d)[j])))
  }

  /** A complete answer always decodes: its `x` part holds exactly the `x`
      variables and its `y` part exactly the `y` variables. */
  function SolutionOf(d: Data, a: Prop -> bool): (s: Solution)
    requires WellFormed(d)
    ensures Decode(d, Answer(d, a)) == Success(s)
  {
    AnswerDecodes(d, a);
    Decode(d, Answer(d, a)).value
  }

  lemma AnswerDecodes(d: Data, a: Prop -> bool)
    requires WellFormed(d)
    ensures Decode(d, Answer(d, a)).Success?
  {
    var vars := Answer(d, a);
    AnswerBlocks(d, a);
    DecodeSucceeds(d, vars);
  }

  /** In a complete answer the `x` positions hold `x` variables and the `y`
      positions `y` variables. */
  lemma AnswerBlocks(d: Data, a: Prop -> bool)
    requires WellFormed(d)
    ensures forall j | 0 <= j < |Answer(d, a)| && j < |XKeys(d)| :: Answer(d, a)[j].0.X?
    ensures forall j | |XKeys(d)| <= j < |Answer(d, a)| && j < |XKeys(d)| + |YKeys(d)| :: Answer(d, a)[j].0.Y?
  {
    var vars := Answer(d, a);
    forall j | 0 <= j < |vars| && j < |XKeys(d)|
      ensures vars[j].0.X?
    {
      VarsBlocks(d, j);
    }
    forall j | |XKeys(d)| <= j < |vars| && j < |XKeys(d)| + |YKeys(d)|
      ensures vars[j].0.Y?
    {
      VarsBlocks(d, j);
    }
  }

  lemma DecodeSucceeds(d: Data, vars: Dict<Prop>)
    requires WellFormed(d)
    requires forall j | 0 <= j < |vars| :: IsVar(d, vars[j].0)
    requires forall j | 0 <= j < |vars| && j < |XKeys(d)| :: vars[j].0.X?
    requires forall j | |XKeys(d)| <= j < |vars| && j < |XKeys(d)| + |YKeys(d)| :: vars[j].0.Y?
    ensures Decode(d, vars).Success?
  {
  }

  /** The `x` part of a complete answer: the keys of `x` with their values. */
  function XPart(d: Data, a: Prop -> bool): (r: Dict<Prop>)
    requires WellFormed(d)
    ensures |r| == |XKeys(d)|
    ensures forall j | 0 <= j < |r| :: r[j] == (XKeys(d)[j], a(XKeys(d)[j]))
    ensures forall j | 0 <= j < |r| :: IsVar(d, r[j].0)
  {
    var r := XSlice(d, Answer(d, a));
    forall j | 0 <= j < |r|
      ensures r[j] == (XKeys(d)[j], a(XKeys(d)[j])) && IsVar(d, r[j].0)
    {
      VarsAt(d, j);
    }
    r
  }

  /** The `y` part of a complete answer: the keys of `y` with their values. */
  function YPart(d: Data, a: Prop -> bool): (r: Dict<Prop>)
    requires WellFormed(d)
    ensures |r| == |YKeys(d)|
    ensures forall j | 0 <= j < |r| :: r[j] == (YKeys(d)[j], a(YKeys(d)[j]))
  {
    var r := YSlice(d, Answer(d, a));
    forall j | 0 <= j < |r|
      ensures r[j] == (YKeys(d)[j], a(YKeys(d)[j]))
    {
      VarsAt(d, |XKeys(d)| + j);
    }
    r
  }

  /** The `z` part of a complete answer: each instance with its value. */
  function ZPart(d: Data, a: Prop -> bool): (r: Dict<Prop>)
    requires WellFormed(d)
    ensures |r| == |d.rows|
    ensures forall u | 0 <= u < |r| :: r[u] == (Z(u), a(Z(u)))
  {
    var r := ZSlice(d, Answer(d, a));
    forall u | 0 <= u < |r|
      ensures r[u] == (Z(u), a(Z(u)))
    {
      ZSliceAt(d, a, u);
    }
    r
  }

  lemma ZSliceAt(d: Data, a: Prop -> bool, u: nat)
    requires WellFormed(d) && u < |ZSlice(d, Answer(d, a))|
    ensures ZSlice(d, Answer(d, a))[u] == (Z(u), a(Z(u)))
  {
    var vars := Answer(d, a);
    var j := |XKeys(d)| + |YKeys(d)| + u;
    assert ZSlice(d, vars)[u] == vars[j];
    VarsAt(d, j);
    assert Vars(d)[j] == Z(u);
    assert vars[j] == (Vars(d)[j], a(Vars(d)[j]));
  }

  /** The decoded model is read off the three parts. */
  lemma SolutionParts(d: Data, a: Prop -> bool)
    requires WellFormed(d)
    ensures Intervals(d, XPart(d, a)).Success?
    ensures SufficientCoalitions(YPart(d, a)).Success?
    ensures SolutionOf(d, a) == Solution(Intervals(d, XPart(d, a)).value,
                                         SufficientCoalitions(YPart(d, a)).value,
                                         Classified(ZPart(d, a)).0,
                                         Classified(ZPart(d, a)).1)
  {
    var s := SolutionOf(d, a);
    assert Decode(d, Answer(d, a)) == Success(s);
  }

  /** Instance `u` is listed as correctly classified exactly when `z[u]` is
      true, and as incorrectly classified exactly when it is false. */
  lemma ClassifiedAnswer(d: Data, a: Prop -> bool, u: nat)
    requires WellFormed(d) && u < |d.rows|
    ensures Z(u) in SolutionOf(d, a).correct <==> a(Z(u))
    ensures Z(u) in SolutionOf(d, a).incorrect <==> !a(Z(u))
  {
    var zs := ZPart(d, a);
    assert SolutionOf(d, a).correct == Classified(zs).0 && SolutionOf(d, a).incorrect == Classified(zs).1 by {
      SolutionParts(d, a);
    }
    assert zs[u] == (Z(u), a(Z(u)));
    ZPartDistinct(d, a);
    ClassifiedKey(zs, u);
  }

  /** No instance appears twice in the `z` part. */
  lemma ZPartDistinct(d: Data, a: Prop -> bool)
    requires WellFormed(d)
    ensures Distinct(Firsts(ZPart(d, a)))
  {
    var zs := ZPart(d, a);
    forall j, j' | 0 <= j < j' < |zs|
      ensures Firsts(zs)[j] != Firsts(zs)[j']
    {
      assert zs[j].0 == Z(j) && zs[j'].0 == Z(j');
    }
  }

  /** When no key repeats, an entry's key lands in the list its value picks
      and not in the other. */
  lemma ClassifiedKey(zs: Dict<Prop>, u: nat)
    requires u < |zs| && Distinct(Firsts(zs))
    ensures zs[u].0 in Classified(zs).0 <==> zs[u].1
    ensures zs[u].0 in Classified(zs).1 <==> !zs[u].1
  {
    var r := Classified(zs);
    if zs[u].0 in r.0 {
      var j :| 0 <= j < |zs| && zs[j] == (zs[u].0, true);
      DistinctIndex(Firsts(zs), j, u);
    }
    if zs[u].0 in r.1 {
      var j :| 0 <= j < |zs| && zs[j] == (zs[u].0, false);
      DistinctIndex(Firsts(zs), j, u);
    }
  }

  /** Coalition `B` is listed as sufficient at level `h` exactly when
      `y[B, h]` is true. */
  lemma SufficientAnswer(d: Data, a: Prop -> bool, b: seq<nat>, h: nat)
    requires WellFormed(d) && IsCoalition(b, d.n) && 1 <= h < P(d)
    ensures (LevelsOf(SolutionOf(d, a).sufficient, b).Some? && h in LevelsOf(SolutionOf(d, a).sufficient, b).value)
            <==> a(Y(b, h))
  {
    var ys := YPart(d, a);
    assert LevelsOf(SolutionOf(d, a).sufficient, b) == Expected(ys, b) by {
      SolutionParts(d, a);
    }
    TrueLevelsMember(ys, b, h);
    YKeysMember(d, Y(b, h));
    var j :| 0 <= j < |YKeys(d)| && YKeys(d)[j] == Y(b, h);
    assert ys[j] == (Y(b, h), a(Y(b, h)));
  }

  /** The interval for criterion `i` at level `h` in a decoded complete answer. */
  function IntervalOf(d: Data, a: Prop -> bool, h: nat, i: nat): (iv: Interval)
    requires WellFormed(d) && 1 <= h < P(d) && i < d.n
    ensures iv == SolutionOf(d, a).profiles[h - 1][i]
    ensures Tight(XPart(d, a), i, h, iv)
  {
    var xs := XPart(d, a);
    ProfilesOf(d, a);
    var pr := Intervals(d, xs).value;
    pr[h - 1][i]
  }

  /** The decoded profiles are the intervals read off the `x` part. */
  lemma ProfilesOf(d: Data, a: Prop -> bool)
    requires WellFormed(d)
    ensures Intervals(d, XPart(d, a)).Success?
    ensures SolutionOf(d, a).profiles == Intervals(d, XPart(d, a)).value
    ensures Shaped(d, SolutionOf(d, a).profiles)
  {
    SolutionParts(d, a);
  }

  /** The decoded intervals separate the marks: a mark that validates its
      criterion at level `h` is at least the upper bound, one that does not is
      at most the lower bound. */
  lemma IntervalsSeparate(d: Data, a: Prop -> bool, h: nat, i: nat, u: nat)
    requires WellFormed(d) && 1 <= h < P(d) && i < d.n && u < |d.rows|
    ensures var iv := SolutionOf(d, a).profiles[h - 1][i];
            (a(X(i, h, Mark(d, i, u))) ==> Mark(d, i, u) >= iv.upper) &&
            (!a(X(i, h, Mark(d, i, u))) ==> Mark(d, i, u) <= iv.lower)
  {
    var iv := IntervalOf(d, a, h, i);
    var xs := XPart(d, a);
    var v := X(i, h, Mark(d, i, u));
    assert Mark(d, i, u) in Column(d, i) by {
      assert Column(d, i)[u] == Mark(d, i, u);
    }
    XKeysMember(d, v);
    var j :| 0 <= j < |xs| && XKeys(d)[j] == v;
    assert xs[j] == (v, a(v));
  }

  /** Every mark lies in `[0, 20]`, the range the profile intervals start from. */
  predicate MarksWithin(d: Data)
    requires WellFormed(d)
  {
    forall i, u | 0 <= i < d.n && 0 <= u < |d.rows| :: Floor <= Mark(d, i, u) <= Ceiling
  }

  /** Under an assignment satisfying clause family c1, with marks in
      `[0, 20]`, no decoded interval is empty. */
  lemma IntervalsNonEmpty(d: Data, a: Prop -> bool, h: nat, i: nat)
    requires WellFormed(d) && 1 <= h < P(d) && i < d.n
    requires MarksWithin(d)
    requires MarksUpwardAt(d, a, h, i)
    ensures IntervalOf(d, a, h, i).lower <= IntervalOf(d, a, h, i).upper
  {
    var xs := XPart(d, a);
    var iv := IntervalOf(d, a, h, i);
    if iv.upper != Ceiling && iv.lower != Floor {
      var j :| 0 <= j < |xs| && xs[j].1 && Names(xs[j].0, i, h) && iv.upper == xs[j].0.mark;
      var j' :| 0 <= j' < |xs| && !xs[j'].1 && Names(xs[j'].0, i, h) && iv.lower == xs[j'].0.mark;
      EntryObserved(d, a, i, h, j);
      EntryObserved(d, a, i, h, j');
    } else if iv.upper != Ceiling {
      var j :| 0 <= j < |xs| && xs[j].1 && Names(xs[j].0, i, h) && iv.upper == xs[j].0.mark;
      EntryObserved(d, a, i, h, j);
    } else if iv.lower != Floor {
      var j' :| 0 <= j' < |xs| && !xs[j'].1 && Names(xs[j'].0, i, h) && iv.lower == xs[j'].0.mark;
      EntryObserved(d, a, i, h, j');
    }
  }

  /** An entry of the `x` part about criterion `i` at level `h` is the value
      of `x[i, h, k]` for a mark `k` some instance has on that criterion. */
  lemma EntryObserved(d: Data, a: Prop -> bool, i: nat, h: nat, j: nat)
    requires WellFormed(d) && j < |XPart(d, a)| && Names(XPart(d, a)[j].0, i, h)
    ensures var k := XPart(d, a)[j].0.mark;
            XPart(d, a)[j] == (X(i, h, k), a(X(i, h, k))) && i < d.n && k in Column(d, i) &&
            (MarksWithin(d) ==> Floor <= k <= Ceiling)
  {
    XMarkObserved(d, XKeys(d)[j]);
  }

  /** An `x` variable names a mark some instance has on its criterion. */
  lemma XMarkObserved(d: Data, v: Prop)
    requires WellFormed(d) && v in XKeys(d)
    ensures v.X? && v.crit < d.n && v.mark in Column(d, v.crit)
    ensures MarksWithin(d) ==> Floor <= v.mark <= Ceiling
  {
    XKeysMember(d, v);
    var u :| 0 <= u < |d.rows| && Column(d, v.crit)[u] == v.mark;
  }
}
