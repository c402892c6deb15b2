/** Reading the solver's standard output (Inv-NCS/maxsat.py lines 214-228 and
    Inv-NCS/sat.py lines 120-131). The output is taken as the captured text;
    running the solver is not modelled. A Python exception on the way
    (`IndexError` on a missing line, `ValueError` from `int`, `KeyError` from
    `i2v`) is a `Failure` here. */
module SolverOutput {
  import opened Wrappers
  import opened Seqs
  import opened Text
  import opened Formula
  import opened Dimacs

  datatype ParseError =
    | MissingLine(index: nat)      // `lines[index]` raises IndexError
    | NotAnInteger                 // `int(token)` raises ValueError
    | UnknownId(literal: int)      // `i2v[abs(literal)]` raises KeyError

  // ---------------------------------------------------------------------------
  // Dictionaries that remember insertion order

  /** A Python dict from variables to truth values: its entries in insertion order. */
  type Dict<K> = seq<(K, bool)>

  /** `d.get(k)`: the value stored under `k`, if any. */
  function Lookup<K(==)>(dict: Dict<K>, k: K): (r: Option<bool>)
    ensures r.Some? <==> k in Firsts(dict)
  {
    if |dict| == 0 then None
    else if dict[0].0 == k then Some(dict[0].1)
    else
      assert Firsts(dict) == [dict[0].0] + Firsts(dict[1..]);
      Lookup(dict[1..], k)
  }

  /** `d[k] = b`: an existing key keeps its place and takes the new value; a
      new key goes at the end. */
  function Put<K(==)>(dict: Dict<K>, k: K, b: bool): (r: Dict<K>)
    ensures k in Firsts(dict) ==> Firsts(r) == Firsts(dict)
    ensures k !in Firsts(dict) ==> Firsts(r) == Firsts(dict) + [k]
  {
    if |dict| == 0 then [(k, b)]
    else
      assert dict == [dict[0]] + dict[1..];
      FirstsCons(dict[0], dict[1..]);
      if dict[0].0 == k then
        FirstsCons((k, b), dict[1..]);
        [(k, b)] + dict[1..]
      else
        var rest := Put(dict[1..], k, b);
        FirstsCons(dict[0], rest);
        [dict[0]] + rest
  }

  /** Storing is an update: `k` now reads `b`, every other key reads as before. */
  lemma {:induction false} PutLookup<K>(dict: Dict<K>, k: K, b: bool, k': K)
    ensures Lookup(Put(dict, k, b), k') == if k' == k then Some(b) else Lookup(dict, k')
  {
    if |dict| > 0 && dict[0].0 != k {
      PutLookup(dict[1..], k, b, k');
      assert ([dict[0]] + Put(dict[1..], k, b))[1..] == Put(dict[1..], k, b);
    } else if |dict| > 0 {
      assert ([(k, b)] + dict[1..])[1..] == dict[1..];
    }
  }

  /** Storing never duplicates a key. */
  lemma PutKeepsDistinct<K>(dict: Dict<K>, k: K, b: bool)
    requires Distinct(Firsts(dict))
    ensures Distinct(Firsts(Put(dict, k, b)))
  {
    if k !in Firsts(dict) {
      DistinctConcat(Firsts(dict), [k]);
    }
  }

  /** `for v in lits: d[i2v[abs(v)]] = v > 0`, stopping at the first unknown id. */
  function Assign<P(==)>(i2v: map<nat, P>, lits: seq<int>, dict: Dict<P>): (r: Result<Dict<P>, ParseError>)
    ensures r.Success? <==> forall j | 0 <= j < |lits| :: Abs(lits[j]) in i2v
  {
    if |lits| == 0 then Success(dict)
    else if Abs(lits[0]) !in i2v then Failure(UnknownId(lits[0]))
    else
      var r := Assign(i2v, lits[1..], Put(dict, i2v[Abs(lits[0])], lits[0] > 0));
      assert forall j | 1 <= j < |lits| :: lits[1..][j - 1] == lits[j];
      r
  }

  /** The truth value the last literal naming `k` gives it, if any literal does. */
  function LastWrite<P(==)>(i2v: map<nat, P>, lits: seq<int>, k: P): Option<bool>
    requires forall j | 0 <= j < |lits| :: Abs(lits[j]) in i2v
  {
    if |lits| == 0 then None
    else
      var later := LastWrite(i2v, lits[1..], k);
      if later.Some? then later
      else if i2v[Abs(lits[0])] == k then Some(lits[0] > 0)
      else None
  }

  /** After the assignment each key reads what its last literal said, or
      what it read before when no literal names it. */
  lemma {:induction false} AssignLookup<P>(i2v: map<nat, P>, lits: seq<int>, dict: Dict<P>, k: P)
    requires forall j | 0 <= j < |lits| :: Abs(lits[j]) in i2v
    ensures Lookup(Assign(i2v, lits, dict).value, k) ==
              if LastWrite(i2v, lits, k).Some? then LastWrite(i2v, lits, k) else Lookup(dict, k)
  {
    if |lits| > 0 {
      var k0 := i2v[Abs(lits[0])];
      assert forall j | 0 <= j < |lits[1..]| :: lits[1..][j] == lits[j + 1];
      AssignLookup(i2v, lits[1..], Put(dict, k0, lits[0] > 0), k);
      PutLookup(dict, k0, lits[0] > 0, k);
    }
  }

  /** The assignment introduces no key twice and only keys `i2v` names. */
  lemma {:induction false} AssignKeys<P>(i2v: map<nat, P>, lits: seq<int>, dict: Dict<P>)
    requires forall j | 0 <= j < |lits| :: Abs(lits[j]) in i2v
    requires Distinct(Firsts(dict))
    ensures Distinct(Firsts(Assign(i2v, lits, dict).value))
    ensures forall k | k in Firsts(Assign(i2v, lits, dict).value) :: k in Firsts(dict) || k in i2v.Values
  {
    if |lits| > 0 {
      var k0 := i2v[Abs(lits[0])];
      var next := Put(dict, k0, lits[0] > 0);
      assert forall j | 0 <= j < |lits[1..]| :: lits[1..][j] == lits[j + 1];
      PutKeepsDistinct(dict, k0, lits[0] > 0);
      AssignKeys(i2v, lits[1..], next);
      assert forall k | k in Firsts(next) :: k in Firsts(dict) || k == k0;
    }
  }

  /** Literals naming pairwise different, fresh keys are appended in order. */
  lemma {:induction false} AssignFresh<P>(i2v: map<nat, P>, lits: seq<int>, dict: Dict<P>)
    requires forall j | 0 <= j < |lits| :: Abs(lits[j]) in i2v
    requires forall j | 0 <= j < |lits| :: i2v[Abs(lits[j])] !in Firsts(dict)
    requires forall i, j | 0 <= i < j < |lits| :: i2v[Abs(lits[i])] != i2v[Abs(lits[j])]
    ensures Assign(i2v, lits, dict) == Success(dict + Pairs(i2v, lits))
  {
    if |lits| > 0 {
      var k := i2v[Abs(lits[0])];
      var tail := lits[1..];
      var next := Put(dict, k, lits[0] > 0);
      assert Assign(i2v, lits, dict) == Assign(i2v, tail, next);
      assert next == dict + [(k, lits[0] > 0)] by {
        PutFresh(dict, k, lits[0] > 0);
      }
      assert forall j | 0 <= j < |tail| :: tail[j] == lits[j + 1];
      assert forall j | 0 <= j < |tail| :: i2v[Abs(tail[j])] !in Firsts(next) by {
        assert Firsts(next) == Firsts(dict) + [k];
      }
      AssignFresh(i2v, tail, next);
      var x := (k, lits[0] > 0);
      var pt := Pairs(i2v, tail);
      assert Pairs(i2v, lits) == [x] + pt;
      ConcatAssoc(dict, [x], pt);
      assert Assign(i2v, tail, next) == Success(next + pt);
      assert next + pt == dict + Pairs(i2v, lits);
    } else {
      assert Pairs(i2v, lits) == [];
      assert dict + [] == dict;
    }
  }

  /** `(i2v[abs(v)], v > 0)` for each literal. */
  function Pairs<P>(i2v: map<nat, P>, lits: seq<int>): (r: Dict<P>)
    requires forall j | 0 <= j < |lits| :: Abs(lits[j]) in i2v
    ensures |r| == |lits|
    ensures forall j | 0 <= j < |lits| :: r[j] == (i2v[Abs(lits[j])], lits[j] > 0)
  {
    seq(|lits|, j requires 0 <= j < |lits| => (i2v[Abs(lits[j])], lits[j] > 0))
  }

  lemma {:induction false} PutFresh<K>(dict: Dict<K>, k: K, b: bool)
    requires k !in Firsts(dict)
    ensures Put(dict, k, b) == dict + [(k, b)]
  {
    if |dict| > 0 {
      assert Firsts(dict) == [dict[0].0] + Firsts(dict[1..]);
      PutFresh(dict[1..], k, b);
      assert [dict[0]] + (dict[1..] + [(k, b)]) == dict + [(k, b)];
    }
  }

  // ---------------------------------------------------------------------------
  // The MaxSAT solver's report

  /** Python's `s[k:]`. */
  function Drop(s: string, k: nat): (r: string)
    ensures |s| <= k ==> r == ""
    ensures |s| > k ==> r == s[k..]
  {
    if |s| <= k then "" else s[k..]
  }

  /** `s.replace("x", "")`. */
  function RemoveX(s: string): (r: string)
    ensures 'x' !in r
    ensures forall c | c in s && c != 'x' :: c in r
  {
    if |s| == 0 then ""
    else if s[0] == 'x' then RemoveX(s[1..])
    else [s[0]] + RemoveX(s[1..])
  }

  lemma {:induction false} RemoveXConcat(a: string, b: string)
    ensures RemoveX(a + b) == RemoveX(a) + RemoveX(b)
  {
    if |a| == 0 {
      assert a + b == b;
    } else {
      assert (a + b)[1..] == a[1..] + b;
      RemoveXConcat(a[1..], b);
    }
  }

  lemma {:induction false} RemoveXKeeps(s: string)
    requires 'x' !in s
    ensures RemoveX(s) == s
  {
    if |s| > 0 {
      RemoveXKeeps(s[1..]);
      assert [s[0]] + s[1..] == s;
    }
  }

  /** `[int(x.replace("x", "")) for x in line[2:].split(" ") if x != ""]`. */
  function MaxSatValueInts(line: string): Option<seq<int>> {
    var toks := Tokens(Drop(line, 2));
    ParseInts(seq(|toks|, j requires 0 <= j < |toks| => RemoveX(toks[j])))
  }

  datatype MaxSatOutput<P> = MaxSatOutput(satisfiable: bool, variables: Dict<P>)

  /** The parsing half of `_exec_gophersat`: an unsatisfiable report unless
      line 2 reads `s OPTIMUM FOUND`; otherwise the tokens of line 3 after its
      two-character prefix, empty ones dropped and every `x` removed, are the
      signed ids of the assignment. */
  function ParseMaxSat<P(==)>(i2v: map<nat, P>, stdout: string): (r: Result<MaxSatOutput<P>, ParseError>)
    ensures |SplitLines(stdout)| <= 2 ==> r == Failure(MissingLine(2))
    ensures |SplitLines(stdout)| > 2 && SplitLines(stdout)[2] != "s OPTIMUM FOUND" ==>
              r == Success(MaxSatOutput(false, []))
    ensures r.Success? && r.value.satisfiable ==>
              |SplitLines(stdout)| > 3 && SplitLines(stdout)[2] == "s OPTIMUM FOUND"
    ensures r.Success? && !r.value.satisfiable ==> r.value.variables == []
    ensures r.Success? ==> Distinct(Firsts(r.value.variables))
    ensures r.Success? ==> forall k | k in Firsts(r.value.variables) :: k in i2v.Values
  {
    var lines := SplitLines(stdout);
    if |lines| <= 2 then Failure(MissingLine(2))
    else if lines[2] != "s OPTIMUM FOUND" then Success(MaxSatOutput(false, []))
    else if |lines| <= 3 then Failure(MissingLine(3))
    else
      var ints := MaxSatValueInts(lines[3]);
      if ints.None? then Failure(NotAnInteger)
      else
        var dict :- Assign(i2v, ints.value, []);
        AssignKeys(i2v, ints.value, []);
        Success(MaxSatOutput(true, dict))
  }

  /** The signed id of the `j`-th variable (id `j + 1`) under truth value `b`. */
  function SignedId(j: nat, b: bool): int {
    if b then j + 1 else -(j + 1)
  }

  /** A value-line token: `x<id>` for a true variable, `-x<id>` for a false one. */
  function XToken(j: nat, b: bool): string {
    (if b then "" else "-") + "x" + NatToString(j + 1)
  }

  /** The value line reporting truth values `vals` for ids `1..|vals|`, in id order. */
  function MaxSatValueLine(vals: seq<bool>): string {
    "v " + Join(seq(|vals|, j requires 0 <= j < |vals| => XToken(j, vals[j])), ' ')
  }

  lemma XTokenShape(j: nat, b: bool)
    ensures XToken(j, b) != "" && ' ' !in XToken(j, b)
    ensures RemoveX(XToken(j, b)) == IntToString(SignedId(j, b))
  {
    var digits := NatToString(j + 1);
    IntToStringAlphabet(j + 1);
    RemoveXKeeps(digits);
    if b {
      assert XToken(j, b) == "x" + digits;
      RemoveXConcat("x", digits);
    } else {
      assert XToken(j, b) == "-x" + digits;
      RemoveXConcat("-x", digits);
      assert RemoveX("-x") == "-";
    }
  }

  /** The ids and signs reported on a value line listing `vals` in id order. */
  function SignedIds(vals: seq<bool>): (r: seq<int>)
    ensures |r| == |vals|
    ensures forall j | 0 <= j < |vals| :: r[j] == SignedId(j, vals[j])
  {
    seq(|vals|, j requires 0 <= j < |vals| => SignedId(j, vals[j]))
  }

  /** The value line reads back as the signed ids it lists. */
  lemma MaxSatValueTokens(vals: seq<bool>)
    ensures MaxSatValueInts(MaxSatValueLine(vals)) == Some(SignedIds(vals))
  {
    var toks := seq(|vals|, j requires 0 <= j < |vals| => XToken(j, vals[j]));
    forall j | 0 <= j < |vals|
      ensures toks[j] != "" && ' ' !in toks[j] && RemoveX(toks[j]) == IntToString(SignedId(j, vals[j]))
    {
      XTokenShape(j, vals[j]);
    }
    var line := MaxSatValueLine(vals);
    assert line == "v " + Join(toks, ' ');
    assert Drop(line, 2) == Join(toks, ' ');
    TokensOfJoin(toks);
    assert Tokens(Drop(line, 2)) == toks;
    var stripped := seq(|toks|, j requires 0 <= j < |toks| => RemoveX(toks[j]));
    assert stripped == Strs(SignedIds(vals));
    ParseIntsStrs(SignedIds(vals));
  }

  /** Which variable each id names and what the solver said about it, in id order. */
  function Listing<P>(i2v: map<nat, P>, vals: seq<bool>): Dict<P>
    requires forall i | 1 <= i <= |vals| :: i in i2v
  {
    seq(|vals|, j requires 0 <= j < |vals| => (i2v[j + 1], vals[j]))
  }

  /** Assigning the signed ids of `vals` lists every variable once, in id order. */
  lemma AssignListing<P>(i2v: map<nat, P>, vals: seq<bool>)
    requires forall i | 1 <= i <= |vals| :: i in i2v
    requires forall i, j | 1 <= i < j <= |vals| :: i2v[i] != i2v[j]
    ensures Assign(i2v, SignedIds(vals), []) == Success(Listing(i2v, vals))
  {
    var ints := SignedIds(vals);
    assert forall j | 0 <= j < |ints| :: Abs(ints[j]) == j + 1;
    AssignFresh(i2v, ints, []);
    assert [] + Pairs(i2v, ints) == Listing(i2v, vals);
  }

  /** Reading back a report whose value line lists every id once, in order,
      gives the assignment as a dictionary in id order. */
  lemma MaxSatRoundTrip<P>(i2v: map<nat, P>, vals: seq<bool>, l0: string, l1: string, rest: seq<string>)
    requires forall i | 1 <= i <= |vals| :: i in i2v
    requires forall i, j | 1 <= i < j <= |vals| :: i2v[i] != i2v[j]
    requires NoLineBreak(l0) && NoLineBreak(l1) && NoLineBreaks(rest)
    ensures ParseMaxSat(i2v, Unlines([l0, l1, "s OPTIMUM FOUND", MaxSatValueLine(vals)] + rest))
            == Success(MaxSatOutput(true, Listing(i2v, vals)))
  {
    var lines := [l0, l1, "s OPTIMUM FOUND", MaxSatValueLine(vals)] + rest;
    ValueLineNoLineBreak(vals);
    ReportLines(l0, l1, "s OPTIMUM FOUND", MaxSatValueLine(vals), rest);
    assert MaxSatValueInts(lines[3]) == Some(SignedIds(vals)) by {
      MaxSatValueTokens(vals);
    }
    AssignListing(i2v, vals);
  }

  /** A report of four lines and a tail splits back into those lines. */
  lemma ReportLines(l0: string, l1: string, l2: string, l3: string, rest: seq<string>)
    requires NoLineBreak(l0) && NoLineBreak(l1) && NoLineBreak(l2) && NoLineBreak(l3) && NoLineBreaks(rest)
    ensures SplitLines(Unlines([l0, l1, l2, l3] + rest)) == [l0, l1, l2, l3] + rest
  {
    var lines := [l0, l1, l2, l3] + rest;
    forall j | 0 <= j < |lines| ensures NoLineBreak(lines[j]) {
      if j >= 4 {
        assert lines[j] == rest[j - 4];
      }
    }
    SplitLinesUnlines(lines);
  }

  lemma ValueLineNoLineBreak(vals: seq<bool>)
    ensures NoLineBreak(MaxSatValueLine(vals))
  {
    var toks := seq(|vals|, j requires 0 <= j < |vals| => XToken(j, vals[j]));
    forall j | 0 <= j < |vals|
      ensures NoLineBreak(toks[j])
    {
      IntToStringAlphabet(j + 1);
      assert toks[j] == (if vals[j] then "" else "-") + "x" + NatToString(j + 1);
    }
    JoinNoLineBreak(toks, ' ');
  }

  // ---------------------------------------------------------------------------
  // The SAT solver's report

  /** `[int(x) for x in line[2:].split(" ")]`: every token, the empty ones too. */
  function SatValueInts(line: string): Option<seq<int>> {
    ParseInts(Split(Drop(line, 2), ' '))
  }

  /** `[v for v in ints if v != 0]`. */
  function NonZeroInts(ints: seq<int>): (r: seq<int>)
    ensures forall j | 0 <= j < |r| :: r[j] != 0
    ensures forall v :: v in r <==> v in ints && v != 0
  {
    var keep := (v: int) => v != 0;
    var r := Filter(ints, keep);
    assert forall v :: keep(v) == (v != 0);
    assert forall j | 0 <= j < |r| :: r[j] in r;
    r
  }

  datatype SatOutput<P> = SatOutput(satisfiable: bool, literals: seq<int>, model: Dict<P>)

  /** The parsing half of the SAT variant: `(False, [], {})` unless line 1
      reads `s SATISFIABLE`; otherwise every token of line 2 after its
      two-character prefix goes through `int`, and the non-zero ones are the
      literals of the model. */
  function ParseSat<P(==)>(i2v: map<nat, P>, stdout: string): (r: Result<SatOutput<P>, ParseError>)
    ensures |SplitLines(stdout)| <= 1 ==> r == Failure(MissingLine(1))
    ensures |SplitLines(stdout)| > 1 && SplitLines(stdout)[1] != "s SATISFIABLE" ==>
              r == Success(SatOutput(false, [], []))
    ensures r.Success? ==> forall j | 0 <= j < |r.value.literals| :: r.value.literals[j] != 0
    ensures r.Success? ==> Distinct(Firsts(r.value.model))
    ensures r.Success? ==> forall k | k in Firsts(r.value.model) :: k in i2v.Values
  {
    var lines := SplitLines(stdout);
    if |lines| <= 1 then Failure(MissingLine(1))
    else if lines[1] != "s SATISFIABLE" then Success(SatOutput(false, [], []))
    else if |lines| <= 2 then Failure(MissingLine(2))
    else
      var ints := SatValueInts(lines[2]);
      if ints.None? then Failure(NotAnInteger)
      else
        var lits := NonZeroInts(ints.value);
        var dict :- Assign(i2v, lits, []);
        AssignKeys(i2v, lits, []);
        Success(SatOutput(true, lits, dict))
  }

  /** The SAT solver's value line: the signed ids in order, then the terminator `0`. */
  function SatValueLine(vals: seq<bool>): string {
    "v " + Join(Strs(SignedIds(vals) + [0]), ' ')
  }

  lemma SignedIdsNonZero(vals: seq<bool>)
    ensures NonZeroInts(SignedIds(vals) + [0]) == SignedIds(vals)
  {
    FilterConcat(SignedIds(vals), [0], (v: int) => v != 0);
    FilterKeepsAll(SignedIds(vals), (v: int) => v != 0);
  }

  /** The SAT value line reads back as the signed ids it lists, then `0`. */
  lemma SatValueTokens(vals: seq<bool>)
    ensures SatValueInts(SatValueLine(vals)) == Some(SignedIds(vals) + [0])
  {
    var strs := Strs(SignedIds(vals) + [0]);
    StrsShape(SignedIds(vals) + [0]);
    assert Drop(SatValueLine(vals), 2) == Join(strs, ' ');
    SplitJoin(strs, ' ');
    ParseIntsStrs(SignedIds(vals) + [0]);
  }

  /** Reading back a SAT report whose value line lists every id once, in
      order, gives the literals and the model in id order. */
  lemma SatRoundTrip<P>(i2v: map<nat, P>, vals: seq<bool>, l0: string, rest: seq<string>)
    requires forall i | 1 <= i <= |vals| :: i in i2v
    requires forall i, j | 1 <= i < j <= |vals| :: i2v[i] != i2v[j]
    requires NoLineBreak(l0) && NoLineBreaks(rest)
    ensures ParseSat(i2v, Unlines([l0, "s SATISFIABLE", SatValueLine(vals)] + rest))
            == Success(SatOutput(true, SignedIds(vals), Listing(i2v, vals)))
  {
    var lines := [l0, "s SATISFIABLE", SatValueLine(vals)] + rest;
    SatLines(vals, l0, rest);
    assert SatValueInts(lines[2]) == Some(SignedIds(vals) + [0]) by {
      SatValueTokens(vals);
    }
    assert NonZeroInts(SignedIds(vals) + [0]) == SignedIds(vals) by {
      SignedIdsNonZero(vals);
    }
    assert Assign(i2v, SignedIds(vals), []) == Success(Listing(i2v, vals)) by {
      AssignListing(i2v, vals);
    }
  }

  lemma SatLines(vals: seq<bool>, l0: string, rest: seq<string>)
    requires NoLineBreak(l0) && NoLineBreaks(rest)
    ensures SplitLines(Unlines([l0, "s SATISFIABLE", SatValueLine(vals)] + rest))
            == [l0, "s SATISFIABLE", SatValueLine(vals)] + rest
  {
    var lines := [l0, "s SATISFIABLE", SatValueLine(vals)] + rest;
    var strs := Strs(SignedIds(vals) + [0]);
    StrsShape(SignedIds(vals) + [0]);
    JoinNoLineBreak(strs, ' ');
    forall j | 0 <= j < |lines| ensures NoLineBreak(lines[j]) {
      if j >= 3 {
        assert lines[j] == rest[j - 3];
      }
    }
    SplitLinesUnlines(lines);
  }
}
