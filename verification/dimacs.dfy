/** The clause files handed to the solver: the weighted (WCNF) text the
    MaxSAT encoder writes (Inv-NCS/maxsat.py `_clauses_to_dimacs`) and the
    plain CNF text the SAT encoder writes (Inv-NCS/sat.py `_clauses_to_dimacs`),
    together with a reader that recovers the clause list from either text. */
module Dimacs {
  import opened Wrappers
  import opened Seqs
  import opened Text

  /** The comment line both writers put first. */
  const Comment: string := "c This is it"

  /** `map(str, xs)`. */
  function Strs(xs: seq<int>): (r: seq<string>)
    ensures |r| == |xs|
  {
    seq(|xs|, j requires 0 <= j < |xs| => IntToString(xs[j]))
  }

  /** One WCNF clause line without its newline:
      `str(w) + " " + " ".join(map(str, clause)) + " 0"`. */
  function WcnfLine(w: int, clause: seq<int>): string {
    IntToString(w) + " " + Join(Strs(clause), ' ') + " 0"
  }

  function Min(a: nat, b: nat): nat {
    if a <= b then a else b
  }

  /** The header line `p <format> <numvar> <numclauses>`. */
  function Header(format: string, numvar: nat, numclauses: nat): string {
    "p " + format + " " + IntToString(numvar) + " " + IntToString(numclauses)
  }

  /** The MaxSAT writer: the comment, the header counting `len(clauses)`, then
      one line per pair of `zip(clauses, weights)`, each ended by a newline. */
  function Wcnf(clauses: seq<seq<int>>, weights: seq<int>, numvar: nat): string {
    Unlines([Comment, Header("wcnf", numvar, |clauses|)] + WcnfBody(clauses, weights))
  }

  /** The clause lines of `zip(clauses, weights)`: as many as the shorter list. */
  function WcnfBody(clauses: seq<seq<int>>, weights: seq<int>): (r: seq<string>)
    ensures |r| == Min(|clauses|, |weights|)
  {
    if |clauses| == 0 || |weights| == 0 then []
    else [WcnfLine(weights[0], clauses[0])] + WcnfBody(clauses[1..], weights[1..])
  }

  /** The literals of a CNF clause, each followed by one space. */
  function CnfAtoms(clause: seq<int>): string {
    if |clause| == 0 then "" else IntToString(clause[0]) + " " + CnfAtoms(clause[1..])
  }

  /** One CNF clause line without its newline: every literal and a space, then `0`. */
  function CnfLine(clause: seq<int>): string {
    CnfAtoms(clause) + "0"
  }

  /** The SAT writer: the comment, the header, one line per clause. */
  function Cnf(clauses: seq<seq<int>>, numvar: nat): string {
    Unlines([Comment, Header("cnf", numvar, |clauses|)] + CnfBody(clauses))
  }

  function CnfBody(clauses: seq<seq<int>>): (r: seq<string>)
    ensures |r| == |clauses|
  {
    if |clauses| == 0 then [] else [CnfLine(clauses[0])] + CnfBody(clauses[1..])
  }

  // ---------------------------------------------------------------------------
  // Reading a clause file back

  datatype DimacsFile = DimacsFile(numvar: nat, weights: seq<int>, clauses: seq<seq<int>>)

  /** The non-empty space-separated tokens of a line. */
  function Tokens(line: string): seq<string> {
    Filter(Split(line, ' '), (t: string) => t != "")
  }

  function ParseInts(toks: seq<string>): (r: Option<seq<int>>)
    ensures r.Some? ==> |r.value| == |toks|
  {
    if |toks| == 0 then Some([])
    else
      var x :- ParseInt(toks[0]);
      var rest :- ParseInts(toks[1..]);
      Some([x] + rest)
  }

  predicate NonZero(c: seq<int>) {
    forall j | 0 <= j < |c| :: c[j] != 0
  }

  /** A clause line: optionally a weight, then non-zero literals, then `0`. */
  function ReadClauseLine(line: string, weighted: bool): Option<(int, seq<int>)> {
    var ints :- ParseInts(Tokens(line));
    var first := if weighted then 1 else 0;
    if |ints| < first + 1 || ints[|ints| - 1] != 0 || !NonZero(ints[first..|ints| - 1]) then None
    else Some((if weighted then ints[0] else 0, ints[first..|ints| - 1]))
  }

  function ReadClauseLines(lines: seq<string>, weighted: bool): (r: Option<(seq<int>, seq<seq<int>>)>)
    ensures r.Some? ==> |r.value.1| == |lines|
  {
    if |lines| == 0 then Some(([], []))
    else
      var first :- ReadClauseLine(lines[0], weighted);
      var rest :- ReadClauseLines(lines[1..], weighted);
      Some(((if weighted then [first.0] else []) + rest.0, [first.1] + rest.1))
  }

  /** The header line: `p`, the format, a non-negative variable count and a
      non-negative clause count. */
  function ReadHeader(line: string, format: string): Option<(nat, nat)> {
    var h := Split(line, ' ');
    if |h| != 4 || h[0] != "p" || h[1] != format then None
    else
      var numvar :- ParseInt(h[2]);
      var numclauses :- ParseInt(h[3]);
      if numvar < 0 || numclauses < 0 then None else Some((numvar, numclauses))
  }

  /** Reads a clause file: the comment line, a header of the given format whose
      clause count matches the number of clause lines, then the clause lines. */
  function Read(text: string, format: string, weighted: bool): Option<DimacsFile> {
    var lines := SplitLines(text);
    if |lines| < 2 || lines[0] != Comment then None
    else
      var header :- ReadHeader(lines[1], format);
      if header.1 != |lines| - 2 then None
      else
        var body :- ReadClauseLines(lines[2..], weighted);
        Some(DimacsFile(header.0, body.0, body.1))
  }

  // ---------------------------------------------------------------------------
  // Round trips

  lemma NoLineBreakConcat(a: string, b: string)
    requires NoLineBreak(a) && NoLineBreak(b)
    ensures NoLineBreak(a + b)
  {
    forall j | 0 <= j < |a + b|
      ensures !IsLineBreak((a + b)[j])
    {
      if j >= |a| {
        assert (a + b)[j] == b[j - |a|];
      }
    }
  }

  lemma IntToStringNoLineBreak(i: int)
    ensures NoLineBreak(IntToString(i))
  {
    IntToStringAlphabet(i);
  }

  lemma {:induction false} JoinNoLineBreak(parts: seq<string>, sep: char)
    requires !IsLineBreak(sep)
    requires forall j | 0 <= j < |parts| :: NoLineBreak(parts[j])
    ensures NoLineBreak(Join(parts, sep))
  {
    if |parts| > 1 {
      JoinNoLineBreak(parts[1..], sep);
      NoLineBreakConcat(parts[0], [sep]);
      NoLineBreakConcat(parts[0] + [sep], Join(parts[1..], sep));
    }
  }

  /** The format names are lower-case words. */
  lemma LowerCaseNoLineBreak(s: string)
    requires forall j | 0 <= j < |s| :: 'a' <= s[j] <= 'z'
    ensures NoLineBreak(s)
  {
  }

  lemma HeaderNoLineBreak(format: string, numvar: nat, numclauses: nat)
    requires forall j | 0 <= j < |format| :: 'a' <= format[j] <= 'z'
    ensures NoLineBreak(Header(format, numvar, numclauses))
  {
    IntToStringNoLineBreak(numvar);
    IntToStringNoLineBreak(numclauses);
    LowerCaseNoLineBreak(format);
    NoLineBreakConcat("p ", format);
    NoLineBreakConcat("p " + format, " ");
    NoLineBreakConcat("p " + format + " ", IntToString(numvar));
    NoLineBreakConcat("p " + format + " " + IntToString(numvar), " ");
    NoLineBreakConcat("p " + format + " " + IntToString(numvar) + " ", IntToString(numclauses));
  }

  lemma HeaderShape(format: string, numvar: nat, numclauses: nat)
    requires ' ' !in format
    ensures Split(Header(format, numvar, numclauses), ' ') ==
              ["p", format, IntToString(numvar), IntToString(numclauses)]
  {
    var a, b := IntToString(numvar), IntToString(numclauses);
    IntToStringAlphabet(numvar);
    IntToStringAlphabet(numclauses);
    var parts := ["p", format, a, b];
    assert parts[1..][1..][1..] == [b];
    assert Join(parts[1..][1..], ' ') == a + [' '] + b;
    assert Join(parts[1..], ' ') == format + [' '] + (a + [' '] + b);
    assert Join(parts, ' ') == "p" + [' '] + (format + [' '] + (a + [' '] + b));
    assert Join(parts, ' ') == Header(format, numvar, numclauses);
    SplitJoin(parts, ' ');
  }

  lemma {:induction false} ParseIntsConcat(a: seq<string>, b: seq<string>)
    requires ParseInts(a).Some? && ParseInts(b).Some?
    ensures ParseInts(a + b) == Some(ParseInts(a).value + ParseInts(b).value)
  {
    if |a| > 0 {
      ParseIntsConcat(a[1..], b);
      assert a == [a[0]] + a[1..];
      assert a + b == [a[0]] + (a[1..] + b);
      ParseIntsCons(a[0], a[1..]);
      ParseIntsCons(a[0], a[1..] + b);
      var x, p, q := ParseInt(a[0]).value, ParseInts(a[1..]).value, ParseInts(b).value;
      assert [x] + (p + q) == ([x] + p) + q;
    } else {
      assert a + b == b;
      assert ParseInts(a).value == [];
      assert ParseInts(a).value + ParseInts(b).value == ParseInts(b).value;
    }
  }

  /** Parsing a token in front of a list of tokens. */
  lemma ParseIntsCons(t: string, rest: seq<string>)
    ensures ParseInts([t] + rest) ==
              if ParseInt(t).Some? && ParseInts(rest).Some? then Some([ParseInt(t).value] + ParseInts(rest).value)
              else None
  {
    assert ([t] + rest)[0] == t && ([t] + rest)[1..] == rest;
  }

  lemma {:induction false} ParseIntsStrs(xs: seq<int>)
    ensures ParseInts(Strs(xs)) == Some(xs)
  {
    if |xs| > 0 {
      IntToStringRoundTrip(xs[0]);
      assert Strs(xs) == [IntToString(xs[0])] + Strs(xs[1..]);
      ParseIntsStrs(xs[1..]);
      ParseIntsCons(IntToString(xs[0]), Strs(xs[1..]));
      assert [xs[0]] + xs[1..] == xs;
    }
  }

  lemma StrsShape(xs: seq<int>)
    ensures forall j | 0 <= j < |xs| :: Strs(xs)[j] != "" && ' ' !in Strs(xs)[j] && NoLineBreak(Strs(xs)[j])
  {
    forall j | 0 <= j < |xs|
      ensures Strs(xs)[j] != "" && ' ' !in Strs(xs)[j] && NoLineBreak(Strs(xs)[j])
    {
      IntToStringAlphabet(xs[j]);
    }
  }

  /** Dropping the empty pieces of a joined list of non-empty, space-free
      strings gives the list back; for the empty list the single empty piece
      is dropped. */
  lemma TokensOfJoin(strs: seq<string>)
    requires forall j | 0 <= j < |strs| :: strs[j] != "" && ' ' !in strs[j]
    ensures Filter(Split(Join(strs, ' '), ' '), (t: string) => t != "") == strs
  {
    if |strs| == 0 {
      assert Split("", ' ') == [""];
    } else {
      SplitJoin(strs, ' ');
      FilterKeepsAll(strs, (t: string) => t != "");
    }
  }

  lemma SplitWcnfLine(w: int, clause: seq<int>)
    ensures Split(WcnfLine(w, clause), ' ') ==
              [IntToString(w)] + (Split(Join(Strs(clause), ' '), ' ') + ["0"])
  {
    var a := IntToString(w);
    var j := Join(Strs(clause), ' ');
    IntToStringAlphabet(w);
    assert WcnfLine(w, clause) == a + [' '] + (j + [' '] + "0");
    SplitAtSeparator(a, j + [' '] + "0", ' ');
    SplitAtSeparator(j, "0", ' ');
    SplitNoSeparator(a, ' ');
    SplitNoSeparator("0", ' ');
  }

  /** The tokens of a WCNF line are the weight, the literals and the terminator. */
  lemma WcnfLineTokens(w: int, clause: seq<int>)
    ensures Tokens(WcnfLine(w, clause)) == [IntToString(w)] + Strs(clause) + ["0"]
  {
    var keep := (t: string) => t != "";
    var a := IntToString(w);
    var pieces := Split(Join(Strs(clause), ' '), ' ');
    SplitWcnfLine(w, clause);
    StrsShape(clause);
    TokensOfJoin(Strs(clause));
    FilterConcat([a], pieces + ["0"], keep);
    FilterConcat(pieces, ["0"], keep);
  }

  lemma WcnfLineNoLineBreak(w: int, clause: seq<int>)
    ensures NoLineBreak(WcnfLine(w, clause))
  {
    var a := IntToString(w);
    var j := Join(Strs(clause), ' ');
    StrsShape(clause);
    JoinNoLineBreak(Strs(clause), ' ');
    IntToStringNoLineBreak(w);
    NoLineBreakConcat(a, " ");
    NoLineBreakConcat(a + " ", j);
    NoLineBreakConcat(a + " " + j, " 0");
  }

  /** A CNF line is its first literal, a space, and the line of the rest. */
  lemma CnfLineCons(clause: seq<int>)
    requires |clause| > 0
    ensures CnfLine(clause) == IntToString(clause[0]) + [' '] + CnfLine(clause[1..])
    ensures Strs(clause) == [IntToString(clause[0])] + Strs(clause[1..])
  {
  }

  lemma {:induction false} CnfAtomsSplit(clause: seq<int>)
    ensures Split(CnfLine(clause), ' ') == Strs(clause) + ["0"]
  {
    if |clause| == 0 {
      SplitNoSeparator("0", ' ');
    } else {
      var a := IntToString(clause[0]);
      IntToStringAlphabet(clause[0]);
      CnfLineCons(clause);
      SplitAtSeparator(a, CnfLine(clause[1..]), ' ');
      SplitNoSeparator(a, ' ');
      CnfAtomsSplit(clause[1..]);
    }
  }

  lemma {:induction false} CnfLineNoLineBreak(clause: seq<int>)
    ensures NoLineBreak(CnfLine(clause))
  {
    if |clause| > 0 {
      var a := IntToString(clause[0]);
      CnfLineCons(clause);
      CnfLineNoLineBreak(clause[1..]);
      IntToStringNoLineBreak(clause[0]);
      NoLineBreakConcat(a, " ");
      NoLineBreakConcat(a + " ", CnfLine(clause[1..]));
    }
  }

  lemma CnfLineTokens(clause: seq<int>)
    ensures Tokens(CnfLine(clause)) == Strs(clause) + ["0"]
    ensures NoLineBreak(CnfLine(clause))
  {
    CnfAtomsSplit(clause);
    CnfLineNoLineBreak(clause);
    StrsShape(clause);
    FilterKeepsAll(Strs(clause) + ["0"], (t: string) => t != "");
  }

  lemma ReadClauseLineOf(line: string, weighted: bool, ints: seq<int>, w: int, clause: seq<int>)
    requires ParseInts(Tokens(line)) == Some(ints)
    requires ints == if weighted then [w] + clause + [0] else clause + [0]
    requires NonZero(clause)
    ensures ReadClauseLine(line, weighted) == Some((if weighted then w else 0, clause))
  {
    var first := if weighted then 1 else 0;
    assert ints[first..|ints| - 1] == clause;
  }

  lemma ParseWcnfTokens(w: int, clause: seq<int>)
    ensures ParseInts([IntToString(w)] + Strs(clause) + ["0"]) == Some([w] + clause + [0])
  {
    ParseIntsSingle(w);
    ParseIntsTerminator();
    ParseIntsStrs(clause);
    ParseIntsConcat([IntToString(w)], Strs(clause));
    ParseIntsConcat([IntToString(w)] + Strs(clause), ["0"]);
  }

  lemma ParseIntsSingle(w: int)
    ensures ParseInts([IntToString(w)]) == Some([w])
  {
    IntToStringRoundTrip(w);
    var toks := [IntToString(w)];
    assert toks[1..] == [];
    assert ParseInts(toks[1..]) == Some([]);
    assert [w] + [] == [w];
  }

  lemma ParseIntsTerminator()
    ensures ParseInts(["0"]) == Some([0])
  {
    assert IntToString(0) == "0";
    ParseIntsSingle(0);
  }

  lemma ReadWcnfLine(w: int, clause: seq<int>)
    requires NonZero(clause)
    ensures ReadClauseLine(WcnfLine(w, clause), true) == Some((w, clause))
  {
    WcnfLineTokens(w, clause);
    ParseWcnfTokens(w, clause);
    ReadClauseLineOf(WcnfLine(w, clause), true, [w] + clause + [0], w, clause);
  }

  lemma ReadCnfLine(clause: seq<int>)
    requires NonZero(clause)
    ensures ReadClauseLine(CnfLine(clause), false) == Some((0, clause))
  {
    CnfLineTokens(clause);
    ParseCnfTokens(clause);
    ReadClauseLineOf(CnfLine(clause), false, clause + [0], 0, clause);
  }

  lemma ParseCnfTokens(clause: seq<int>)
    ensures ParseInts(Strs(clause) + ["0"]) == Some(clause + [0])
  {
    ParseIntsTerminator();
    ParseIntsStrs(clause);
    ParseIntsConcat(Strs(clause), ["0"]);
  }

  /** Reading lines one at a time: the first line's clause (and weight)
      comes first. */
  lemma ReadClauseLinesCons(l: string, rest: seq<string>, weighted: bool, w: int, clause: seq<int>,
                            weights: seq<int>, clauses: seq<seq<int>>)
    requires ReadClauseLine(l, weighted) == Some((w, clause))
    requires ReadClauseLines(rest, weighted) == Some((weights, clauses))
    ensures ReadClauseLines([l] + rest, weighted) ==
              Some(((if weighted then [w] else []) + weights, [clause] + clauses))
  {
    assert ([l] + rest)[0] == l && ([l] + rest)[1..] == rest;
  }

  lemma {:induction false} ReadWcnfBody(clauses: seq<seq<int>>, weights: seq<int>)
    requires |weights| == |clauses|
    requires forall j | 0 <= j < |clauses| :: NonZero(clauses[j])
    ensures ReadClauseLines(WcnfBody(clauses, weights), true) == Some((weights, clauses))
  {
    if |clauses| > 0 {
      ReadWcnfLine(weights[0], clauses[0]);
      ReadWcnfBody(clauses[1..], weights[1..]);
      ReadClauseLinesCons(WcnfLine(weights[0], clauses[0]), WcnfBody(clauses[1..], weights[1..]), true,
                          weights[0], clauses[0], weights[1..], clauses[1..]);
      assert [weights[0]] + weights[1..] == weights;
      assert [clauses[0]] + clauses[1..] == clauses;
    }
  }

  lemma {:induction false} ReadCnfBody(clauses: seq<seq<int>>)
    requires forall j | 0 <= j < |clauses| :: NonZero(clauses[j])
    ensures ReadClauseLines(CnfBody(clauses), false) == Some(([], clauses))
  {
    if |clauses| > 0 {
      ReadCnfLine(clauses[0]);
      ReadCnfBody(clauses[1..]);
      ReadClauseLinesCons(CnfLine(clauses[0]), CnfBody(clauses[1..]), false,
                          0, clauses[0], [], clauses[1..]);
      var none: seq<int> := [];
      assert none + none == none;
      assert [clauses[0]] + clauses[1..] == clauses;
    }
  }

  lemma {:induction false} WcnfBodyLines(clauses: seq<seq<int>>, weights: seq<int>)
    ensures NoLineBreaks(WcnfBody(clauses, weights))
  {
    if |clauses| > 0 && |weights| > 0 {
      WcnfLineNoLineBreak(weights[0], clauses[0]);
      WcnfBodyLines(clauses[1..], weights[1..]);
    }
  }

  lemma {:induction false} CnfBodyLines(clauses: seq<seq<int>>)
    ensures NoLineBreaks(CnfBody(clauses))
  {
    if |clauses| > 0 {
      CnfLineNoLineBreak(clauses[0]);
      CnfBodyLines(clauses[1..]);
    }
  }

  lemma ReadHeaderRoundTrip(format: string, numvar: nat, numclauses: nat)
    requires NoLineBreak(format) && ' ' !in format
    ensures ReadHeader(Header(format, numvar, numclauses), format) == Some((numvar, numclauses))
  {
    HeaderShape(format, numvar, numclauses);
    IntToStringRoundTrip(numvar);
    IntToStringRoundTrip(numclauses);
  }

  /** What `Read` makes of a text whose lines are the comment, a header
      and clause lines it can read. */
  lemma ReadOfLines(text: string, format: string, weighted: bool, header: string, body: seq<string>,
                    numvar: nat, weights: seq<int>, clauses: seq<seq<int>>)
    requires SplitLines(text) == [Comment, header] + body
    requires ReadHeader(header, format) == Some((numvar, |body|))
    requires ReadClauseLines(body, weighted) == Some((weights, clauses))
    ensures Read(text, format, weighted) == Some(DimacsFile(numvar, weights, clauses))
  {
    var lines := [Comment, header] + body;
    assert lines[0] == Comment && lines[1] == header && lines[2..] == body;
  }

  lemma LinesNoLineBreak(header: string, body: seq<string>)
    requires NoLineBreak(header)
    requires NoLineBreaks(body)
    ensures NoLineBreaks([Comment, header] + body)
  {
    var lines := [Comment, header] + body;
    forall j | 0 <= j < |lines|
      ensures NoLineBreak(lines[j])
    {
      if j >= 2 {
        assert lines[j] == body[j - 2];
      }
    }
  }

  lemma WcnfLines(clauses: seq<seq<int>>, weights: seq<int>, numvar: nat)
    ensures SplitLines(Wcnf(clauses, weights, numvar)) ==
              [Comment, Header("wcnf", numvar, |clauses|)] + WcnfBody(clauses, weights)
  {
    var lines := [Comment, Header("wcnf", numvar, |clauses|)] + WcnfBody(clauses, weights);
    WcnfHeaderNoLineBreak(numvar, |clauses|);
    WcnfBodyLines(clauses, weights);
    LinesNoLineBreak(Header("wcnf", numvar, |clauses|), WcnfBody(clauses, weights));
    SplitLinesUnlines(lines);
  }

  lemma CnfHeaderNoLineBreak(numvar: nat, numclauses: nat)
    ensures NoLineBreak(Header("cnf", numvar, numclauses))
  {
    HeaderNoLineBreak("cnf", numvar, numclauses);
  }

  lemma WcnfHeaderNoLineBreak(numvar: nat, numclauses: nat)
    ensures NoLineBreak(Header("wcnf", numvar, numclauses))
  {
    HeaderNoLineBreak("wcnf", numvar, numclauses);
  }

  lemma CnfLines(clauses: seq<seq<int>>, numvar: nat)
    ensures SplitLines(Cnf(clauses, numvar)) == [Comment, Header("cnf", numvar, |clauses|)] + CnfBody(clauses)
  {
    var lines := [Comment, Header("cnf", numvar, |clauses|)] + CnfBody(clauses);
    CnfHeaderNoLineBreak(numvar, |clauses|);
    CnfBodyLines(clauses);
    LinesNoLineBreak(Header("cnf", numvar, |clauses|), CnfBody(clauses));
    SplitLinesUnlines(lines);
  }

  /** Reading the MaxSAT writer's text gives back the variable count, the
      weights and the clauses, in order, when every clause has a weight and
      no literal is the terminator `0`. */
  lemma WcnfRoundTrip(clauses: seq<seq<int>>, weights: seq<int>, numvar: nat)
    requires |weights| == |clauses|
    requires forall j | 0 <= j < |clauses| :: NonZero(clauses[j])
    ensures Read(Wcnf(clauses, weights, numvar), "wcnf", true) == Some(DimacsFile(numvar, weights, clauses))
  {
    WcnfLines(clauses, weights, numvar);
    ReadHeaderRoundTrip("wcnf", numvar, |clauses|);
    ReadWcnfBody(clauses, weights);
    ReadOfLines(Wcnf(clauses, weights, numvar), "wcnf", true, Header("wcnf", numvar, |clauses|),
                WcnfBody(clauses, weights), numvar, weights, clauses);
  }

  /** Reading the SAT writer's text gives back the variable count and the
      clauses, in order. */
  lemma CnfRoundTrip(clauses: seq<seq<int>>, numvar: nat)
    requires forall j | 0 <= j < |clauses| :: NonZero(clauses[j])
    ensures Read(Cnf(clauses, numvar), "cnf", false) == Some(DimacsFile(numvar, [], clauses))
  {
    CnfLines(clauses, numvar);
    ReadHeaderRoundTrip("cnf", numvar, |clauses|);
    ReadCnfBody(clauses);
    ReadOfLines(Cnf(clauses, numvar), "cnf", false, Header("cnf", numvar, |clauses|),
                CnfBody(clauses), numvar, [], clauses);
  }
}
