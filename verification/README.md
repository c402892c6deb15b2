# Inverse NCS and MR-Sort: a Dafny model

This project models the core of a Python toolkit that learns
non-compensatory sorting (NCS) models from examples. It covers:

- the MaxSAT encoder `MaxSATSolver` of `Inv-NCS/maxsat.py`. It numbers the
  `x`, `y` and `z` variables and builds the clause families c1 to c6 and the
  goal clauses. It weights them, writes a weighted DIMACS file, parses the
  report of the `gophersat` solver and decodes the assignment into profile
  intervals, sufficient coalitions and correctly classified instances;
- the 3-colouring SAT example of `Inv-NCS/sat.py`, with its plain DIMACS
  writer and its report parser;
- the parameter validation `parse_from_dict` and the NCS decision rule
  `ncs` of `Inv-NCS/data_generator.py`;
- the MR-Sort decision rule `mr_sort` of `Inv-MR-Sort/instance_generation.py`.

The model keeps the program's shape. Clauses are first built over
propositions (`Prop` = `X(i, h, k)`, `Y(B, h)` or `Z(u)`) and are then numbered
through `v2i`, exactly as the Python looks each proposition up in its
dictionaries. The solver's output is a parameter, and so is everything the
program reads from disk or from a subprocess.

Every clause family has a partner: a predicate that says in plain terms
what the family means, with a lemma that a truth assignment satisfies the
family exactly when the predicate holds. Every serialiser has its reader
and a round-trip lemma. Every decision rule has a declarative
characterisation of its class and lemmas about it.

Modules, one file each:

| file | module | models |
|---|---|---|
| wrappers.dfy | `Wrappers` | `Option`, `Result` |
| seqs.dfy | `Seqs` | distinctness, first-seen deduplication (dict insertion order), flat maps, filters |
| text.dfy | `Text` | `str(int)`, `int(str)`, `str.split`, `str.join`, `str.splitlines` |
| coalitions.dfy | `Coalitions` | `itertools.combinations` order, all coalitions, complements |
| ncs_dataset.dfy | `Dataset` | the learning set: marks, classes, `p`, `X[i]`, `C(h)` |
| formula.dfy | `Formula` | literals, clauses, satisfaction, weighted penalty, `v2i`/`i2v` numbering |
| maxsat_vars.dfy | `MaxSatVars` | the `x`, `y`, `z` dictionaries and their numbering |
| maxsat_clauses.dfy | `MaxSatClauses` | clause families c1 to c6, goal, weights |
| dimacs.dfy | `Dimacs` | `_clauses_to_dimacs` (wcnf and cnf) and a DIMACS reader |
| solver_output.dfy | `SolverOutput` | `_exec_gophersat`'s parsing of the report, for both solvers |
| maxsat_decode.dfy | `MaxSatDecode` | `solve`'s decoding of intervals, coalitions and classification |
| maxsat_solver.dfy | `MaxSatSolver` | the encoder and `solve`, end to end |
| sat_colouring.dfy | `SatColouring` | the 3-colouring example of `sat.py` |
| ncs_rule.dfy | `NcsRule` | `parse_from_dict` and `ncs` |
| mr_sort.dfy | `MrSortRule` | `mr_sort` |

## Model

| member | source | states |
|---|---|---|
| Dataset.MaxClass | Inv-NCS/maxsat.py:44 | `max(class)` is a class some row has, and no row has a larger one |
| MaxSatVars.XKeysMember | Inv-NCS/maxsat.py:58-63 | `x` has a key exactly for each criterion `i`, level `1 <= h < p` and mark some instance has on `i` |
| MaxSatVars.XVisitsMember | Inv-NCS/maxsat.py:59-61 | the triple loop visits exactly the `(i, h, k)` with `k` an observed mark of criterion `i` |
| MaxSatVars.YKeysMember | Inv-NCS/maxsat.py:66 | `y` has a key exactly for each coalition (increasing tuple of criteria) and level |
| MaxSatVars.VarsDistinct | Inv-NCS/maxsat.py:58-72 | the variable list `x + y + z` has no repeated key |
| MaxSatVars.VarsMember | Inv-NCS/maxsat.py:71 | a proposition is in the variable list exactly when it is a variable of the model |
| MaxSatVars.YKeysLength | Inv-NCS/maxsat.py:66 | `y` has one key per coalition and level |
| MaxSatVars.CounterSuffices | Inv-NCS/maxsat.py:56 | the counter's range is never exhausted: the number of variables is at most `X.size * (p-1) + len(combinations) * (p-1) + len(index)` |
| MaxSatVars.V2I | Inv-NCS/maxsat.py:72 | `v2i` numbers exactly the variables, each by its 1-based position in `x + y + z` |
| MaxSatVars.I2V | Inv-NCS/maxsat.py:73 | `i2v` is defined on `1..len(variables)` and maps each id to the variable in that position |
| MaxSatVars.Numbering | Inv-NCS/maxsat.py:72-73 | `v2i` and `i2v` are inverse bijections |
| MaxSatVars.NumberingBlocks | Inv-NCS/maxsat.py:56-73 | the ids of `x` come first, then those of `y`, then those of `z` |
| Coalitions.CombinationsMember | Inv-NCS/maxsat.py:51 | `combinations(range(n), k)` lists exactly the increasing `k`-tuples |
| Coalitions.CombinationsDistinct | Inv-NCS/maxsat.py:51 | `combinations` lists no tuple twice |
| Coalitions.AllCoalitionsMember | Inv-NCS/maxsat.py:48-51 | `criteria_combinations` lists exactly the increasing tuples of criteria, empty and full included |
| Coalitions.AllCoalitionsDistinct | Inv-NCS/maxsat.py:48-51 | `criteria_combinations` lists no coalition twice |
| Coalitions.Complement | Inv-NCS/maxsat.py:117 | `B_comp` holds exactly the criteria not in `B`, in increasing order |
| Coalitions.ComplementEnumerated | Inv-NCS/maxsat.py:117-119 | `B_comp` is itself a listed coalition, so `y[B_comp, h]` exists |
| MaxSatClauses.C1Holds | Inv-NCS/maxsat.py:78-80 | c1 holds exactly when, at every level and criterion, a validating mark makes every larger observed mark validating |
| MaxSatClauses.C2Holds | Inv-NCS/maxsat.py:83-90 | c2 holds exactly when a mark validating at level `hp` validates at every lower level |
| MaxSatClauses.C3Holds | Inv-NCS/maxsat.py:93-99 | c3 holds exactly when every strict superset of a sufficient coalition is sufficient at the same level |
| MaxSatClauses.C4Holds | Inv-NCS/maxsat.py:102-104 | c4 holds exactly when a coalition sufficient at level `hp` is sufficient at every lower level |
| MaxSatClauses.C5ClauseHolds | Inv-NCS/maxsat.py:111 | one c5 clause holds exactly when a correct `u` that validates every criterion of `B` at `h` makes `B` insufficient at `h` |
| MaxSatClauses.C5Holds | Inv-NCS/maxsat.py:107-111 | c5 holds exactly when no sufficient coalition is validated by a correctly classified instance of class `h-1` |
| MaxSatClauses.C6ClauseHolds | Inv-NCS/maxsat.py:119 | one c6 clause holds exactly when a correct `u` validating no criterion of `B` at `h` makes the complement of `B` sufficient |
| MaxSatClauses.C6Holds | Inv-NCS/maxsat.py:114-119 | c6 holds exactly when every correctly classified instance of class `h` makes the complement of each coalition it fails sufficient |
| MaxSatClauses.GoalHolds | Inv-NCS/maxsat.py:122 | the goal clauses hold exactly when every instance is marked correctly classified |
| MaxSatClauses.HardHolds | Inv-NCS/maxsat.py:124 | the hard clauses hold exactly when the assignment is a consistent NCS model (c1 to c6 together) |
| MaxSatClauses.ClausesMention | Inv-NCS/maxsat.py:78-124 | every literal of every clause names a key of `x`, `y` or `z`, so every dictionary lookup succeeds |
| MaxSatClauses.WeightsShape | Inv-NCS/maxsat.py:124-127 | one weight per clause: `data.size + 1` on every hard clause, `1` on each goal clause `[z[u]]`, and the hard weight exceeds the number of goal clauses |
| MaxSatClauses.HardDominates | Inv-NCS/maxsat.py:125-127 | an assignment breaking a hard clause is penalised more than any assignment keeping them all |
| Formula.NumberingBijection | Inv-NCS/maxsat.py:72-73 | for a duplicate-free list, `v2i` gives position plus one and `i2v` inverts it |
| Formula.ClauseRoundTrip | Inv-NCS/maxsat.py:223-227 | a clause numbered through `v2i` and read back through `i2v` is the clause itself |
| Formula.EncodeSatisfies | Inv-NCS/maxsat.py:78-124 | a numbered clause is satisfied by truth values per id exactly when the symbolic clause is satisfied by the matching assignment |
| Formula.PenaltyViolated | Inv-NCS/maxsat.py:125-127 | breaking any clause whose weight is at least `w` costs at least `w` |
| Text.IntToStringRoundTrip | Inv-NCS/maxsat.py:224 | `int(str(i)) == i` for every integer |
| Text.SplitJoin | Inv-NCS/maxsat.py:223 | `" ".join(parts).split(" ")` gives the parts back when they contain no space |
| Text.SplitLinesUnlines | Inv-NCS/maxsat.py:214 | `splitlines` recovers newline-terminated lines that contain no line break |
| Dimacs.WcnfRoundTrip | Inv-NCS/maxsat.py:191-198 | the wcnf text has a comment, the header `p wcnf numvar nclauses` and one `w lits 0` line per clause, and reads back as the weights and clauses |
| Dimacs.CnfRoundTrip | Inv-NCS/sat.py:104-110 | the cnf text has the header `p cnf numvar nclauses` and one `lits 0` line per clause, and reads back as the clauses |
| MaxSatSolver.Encoded | Inv-NCS/maxsat.py:78-124 | every numbered literal is a non-zero id within `1..len(variables)`, so it never reads as the clause terminator |
| MaxSatSolver.WcnfTextReads | Inv-NCS/maxsat.py:191-198 | `myDimacs` declares every variable and reads back as exactly the weighted clauses, hard ones first |
| MaxSatSolver.EncodedDecodes | Inv-NCS/maxsat.py:72-73 | each numbered clause names, through `i2v`, the clause it came from |
| MaxSatSolver.HardIdsHold | Inv-NCS/maxsat.py:124-129 | truth values per id satisfy the hard clauses of the file exactly when the NCS model they describe is consistent |
| SolverOutput.ParseMaxSat | Inv-NCS/maxsat.py:214-228 | a report without a line 2 fails; a line 2 other than `s OPTIMUM FOUND` gives unsatisfiable with no variables; the keys read are distinct variables of `i2v` |
| SolverOutput.Assign | Inv-NCS/maxsat.py:227 | building the dict succeeds exactly when every id is in `i2v` (otherwise `KeyError`) |
| SolverOutput.AssignLookup | Inv-NCS/maxsat.py:227 | each variable takes the value of the last literal naming it |
| SolverOutput.RemoveX | Inv-NCS/maxsat.py:224 | `replace("x", "")` leaves no `x` and keeps every other character |
| SolverOutput.MaxSatRoundTrip | Inv-NCS/maxsat.py:214-228 | a report with `s OPTIMUM FOUND` on line 2 and `v x1 -x2 ...` on line 3 parses to each variable in id order with its truth value |
| SolverOutput.ParseSat | Inv-NCS/sat.py:116-131 | a report without a line 1 fails; a line 1 other than `s SATISFIABLE` gives `(False, [], {})`; the literals kept are non-zero |
| SolverOutput.SatRoundTrip | Inv-NCS/sat.py:116-131 | a report with `s SATISFIABLE` and `v 1 -2 ... 0` parses to the signed ids without the terminator and the model they name |
| MaxSatDecode.Initial | Inv-NCS/maxsat.py:137 | the intervals start as `[0, 20]` for every level and criterion |
| MaxSatDecode.Narrow | Inv-NCS/maxsat.py:140-143 | a validating mark lowers only the upper bound, to at most the mark; a non-validating one raises only the lower bound, to at least the mark |
| MaxSatDecode.Intervals | Inv-NCS/maxsat.py:137-144 | decoding the `x` part succeeds exactly when every entry is an `x` key, and every interval's upper bound is the least validating mark (or 20) and its lower bound the greatest non-validating mark (or 0) |
| MaxSatDecode.AddLevelLookup | Inv-NCS/maxsat.py:150-153 | recording level `h` for `B` appends `h` to `B`'s list, or starts it, and leaves the other coalitions alone |
| MaxSatDecode.SufficientCoalitions | Inv-NCS/maxsat.py:146-153 | decoding the `y` part succeeds exactly when every entry is a `y` key; each coalition appears once, listed with the levels at which it was reported true, in order |
| MaxSatDecode.Classified | Inv-NCS/maxsat.py:155-162 | the correct and incorrect lists partition the `z` part: each instance lands in the list its truth value selects |
| MaxSatDecode.Decode | Inv-NCS/maxsat.py:136-162 | decoding succeeds exactly when the first `len(x)` entries are `x` keys and the next `len(y)` are `y` keys; each interval is bounded by exactly the marks the `x` slice reports for its criterion and level; each coalition maps to the levels at which the `y` slice reports it true, once, and unreported coalitions are absent; the correct and incorrect lists together are the remaining entries' variables, split by their reported value |
| MaxSatDecode.SolutionOf | Inv-NCS/maxsat.py:136-162 | a complete assignment listed in id order always decodes |
| MaxSatDecode.ClassifiedAnswer | Inv-NCS/maxsat.py:155-162 | instance `u` is listed as correct exactly when `z[u]` is true, and as incorrect exactly when it is false |
| MaxSatDecode.SufficientAnswer | Inv-NCS/maxsat.py:146-153 | coalition `B` is listed as sufficient at level `h` exactly when `y[B, h]` is true |
| MaxSatDecode.IntervalsSeparate | Inv-NCS/maxsat.py:137-144 | a mark validating criterion `i` at level `h` is at least the interval's upper bound, and one that does not is at most its lower bound |
| MaxSatDecode.IntervalsNonEmpty | Inv-NCS/maxsat.py:137-144 | under clause family c1 and marks in `[0, 20]`, no decoded interval is empty |
| MaxSatSolver.Solve | Inv-NCS/maxsat.py:132-162 | a report of fewer than three lines fails on line 2; parsing fails exactly when the parser does; on success the flag is true exactly when line 2 reads `s OPTIMUM FOUND`; an unsatisfiable report gives the initial intervals and nothing else; otherwise the solution is the decoding of the parsed assignment, with its intervals, coalition map and classification as `MaxSatDecode.Decode` states |
| MaxSatSolver.ListingIsAnswer | Inv-NCS/maxsat.py:223-227 | the dict parsed from a complete report is the list of variables in id order with the values the report gives |
| MaxSatSolver.SolveReport | Inv-NCS/maxsat.py:132-162 | an optimum report listing every id in order solves to the model decoded from that assignment |
| SatColouring.Ids | Inv-NCS/sat.py:68-72 | vertex `v`, colour `c` is numbered `3 * index(v) + c`, and `i2v` inverts it |
| SatColouring.VariablesMember | Inv-NCS/sat.py:68 | the variables are exactly the pairs of a vertex and a colour in `1..3` |
| SatColouring.AtLeastOneHolds | Inv-NCS/sat.py:74 | the first family holds exactly when every vertex has a colour |
| SatColouring.AtMostOneHolds | Inv-NCS/sat.py:76 | the second family holds exactly when no vertex has two colours |
| SatColouring.DifferentColoursHolds | Inv-NCS/sat.py:75 | the third family holds exactly when the ends of every edge differ in colour |
| SatColouring.ClausesMeanProper | Inv-NCS/sat.py:74-77 | `myClauses` hold exactly when the assignment is a proper 3-colouring |
| SatColouring.ProperExample | Inv-NCS/sat.py:58-77 | the graph is 3-colourable, so the clauses are satisfiable |
| SatColouring.EncodedColourClauses | Inv-NCS/sat.py:74 | vertex `v`'s at-least-one clause is numbered `[3v+1, 3v+2, 3v+3]` |
| SatColouring.CnfTextReads | Inv-NCS/sat.py:104-110 | `myDimacs` declares 12 variables and reads back as the 28 clauses in order |
| SatColouring.IdsMeanProper | Inv-NCS/sat.py:74-79 | truth values per id satisfy the numbered clauses exactly when they describe a proper colouring |
| SatColouring.SolveReport | Inv-NCS/sat.py:116-131 | a satisfiable report listing every id parses to the signed ids and each variable with its value |
| NcsRule.ParseFromDict | Inv-NCS/data_generator.py:14-40 | the parameters are accepted exactly when every assertion holds; each rejection names the first assertion that fails in the source's order: the first profile of the wrong length, the first drop in `for h / for i` order, or the first coalition that is not a subset, is empty or repeats a criterion, with every earlier check passing |
| NcsRule.BlamedCoalition | Inv-NCS/data_generator.py:35-38 | a rejected coalition is the first bad one, and the error says which test it fails |
| NcsRule.DistinctCardinality | Inv-NCS/data_generator.py:38 | `len(c) == len(set(c))` exactly when `c` repeats no criterion |
| NcsRule.ValidatedIndexed | Inv-NCS/data_generator.py:14-56 | accepted parameters let `ncs` index every mark and profile |
| NcsRule.Ncs | Inv-NCS/data_generator.py:43-56 | `ncs` returns the number of leading profiles that some coalition clears, stopping at the first that none clears |
| NcsRule.AnyBelow | Inv-NCS/data_generator.py:51 | the `any` test is true exactly when some member of the coalition is below the profile |
| NcsRule.ClassUnique | Inv-NCS/data_generator.py:43-56 | the class is determined by the marks, coalitions and profiles |
| NcsRule.NoCoalitions | Inv-NCS/data_generator.py:49-56 | with no coalition the inner loop never returns, and the class is the number of profiles |
| NcsRule.IgnoresLaterProfiles | Inv-NCS/data_generator.py:49-53 | profiles after the first one the instance fails are never consulted |
| NcsRule.ClassMonotone | Inv-NCS/data_generator.py:43-56 | raising marks never lowers the class |
| NcsRule.SingletonExample | Inv-NCS/data_generator.py:43-56 | with singleton coalitions one criterion at the profile is enough |
| NcsRule.PairExample | Inv-NCS/data_generator.py:43-56 | a pair coalition needs both of its criteria at the profile |
| MrSortRule.MrSort | Inv-MR-Sort/instance_generation.py:8-33 | `mr_sort` returns the number of leading profiles whose reached criteria weigh at least `lmbda`, stopping at the first that falls short |
| MrSortRule.ClassUnique | Inv-MR-Sort/instance_generation.py:24-33 | the class is determined by the instance and the parameters |
| MrSortRule.IgnoresLaterProfiles | Inv-MR-Sort/instance_generation.py:25-31 | profiles after the first failed one are never consulted |
| MrSortRule.WeightMonotone | Inv-MR-Sort/instance_generation.py:26-29 | with non-negative weights, higher marks never carry less weight |
| MrSortRule.ClassMonotone | Inv-MR-Sort/instance_generation.py:24-33 | with non-negative weights, raising marks never lowers the class |
| MrSortRule.NegativeWeightExample | Inv-MR-Sort/instance_generation.py:24-33 | with a negative weight, raising a mark can lower the class |
| MrSortRule.TieExample | Inv-MR-Sort/instance_generation.py:28 | a mark equal to the profile counts as reaching it |
| MrSortRule.NoProfiles | Inv-MR-Sort/instance_generation.py:24-33 | no profile means class 0 |

## Left out

- Invoking `gophersat` through `subprocess`, reading the CSV, and writing the DIMACS, log and solution files are I/O. The solver's standard output is a parameter of `Solve`, and the file text is a function result.
- Timing (`time.time()`, `resolution_time`) and the printed and saved solution report are not modelled. The report only formats values the model computes.
- The rest of the repository is not part of this model. That covers the data generators' random sampling, `learn.py`, `eval.py`, `main.py`, the MIP solvers and the single-peaked variant.
- Marks, weights, profiles and `lmbda` are exact reals. Floating-point rounding and numpy types are not modelled.
- `int()` also accepts surrounding whitespace, `_` digit separators and non-ASCII decimal digits. `Text.ParseInt` accepts only an optional sign followed by ASCII digits, which is all the writers produce.
- The data frame's row labels are taken to be `0..m-1`. `X[i, u]` in lines 111 and 119 indexes by position while `C(h)` and `z` use labels. The two agree for the file `main.py` writes with `index=True` (Inv-NCS/main.py:19), whose first column `pd.read_csv(..., index_col=0)` turns back into the labels `0..m-1`. The file the generator's own `__main__` writes with `index=False` (Inv-NCS/data_generator.py:116) is not the one meant: read with `index_col=0`, its first mark column would become the labels.
- Dataset.WellFormed: requires at least one row, because `max()` of an empty class column raises. It also requires every row to have `n` marks, which a data frame guarantees.
- MaxSatDecode.IntervalsNonEmpty: requires every mark to lie in `[0, 20]`. The decoder's initial interval assumes this and does not check it.
- NcsRule.Ncs: requires at least one profile. With none, `return h + 1` reads an unbound `h` and raises `UnboundLocalError`. It also requires every coalition member to index the marks and every profile to have exactly one threshold per mark. That is stronger than the source needs: `any` stops at the first failing member and the loop stops at the first passing coalition, so some out-of-range members are never read, and a longer profile raises nothing. The call site meets the requirement whenever the criteria are mark positions, as in the configured parameters (`[0, ..., 9]`): `generate_one` (Inv-NCS/data_generator.py:76) passes parameters that `parse_from_dict` accepted and marks with one entry per criterion, and `NcsRule.ValidatedIndexed` states that this suffices. The `criteria` parameter of `ncs` is unused and is left out.
- MrSortRule.MrSort: requires at least as many weights and profile thresholds as marks (`Shaped`). That is stronger than the source needs: `weights[j]` is read only when the mark reaches the threshold, and no profile after the `break` is read, so a short weight list or a short later profile may raise nothing. The configured parameters meet the requirement (Inv-MR-Sort/config.py:8-36), and so does `get_instance`, whose marks have one entry per threshold of a chosen profile (Inv-MR-Sort/instance_generation.py:49-52). `MrSortRule.IgnoresLaterProfiles` asks for `Shaped` of the replacement profiles for the same reason.
- SatColouring: vertices are a four-constructor datatype rather than the strings `"A"` to `"D"`, because only their order and equality matter.
- SolverOutput.ParseMaxSat: a truncated report whose line 2 reads `s OPTIMUM FOUND` but has no line 3 raises `IndexError` in the source. It is modelled as a `Failure`, like every other exception on malformed output.
