# A heuristic 3-SAT solver, modelled in Dafny

The repository holds three versions of a heuristic solver for CNF formulas.
Each reads a DIMACS CNF file and tries to find an assignment that satisfies
every clause.

- `Latest_Research.py` first runs a greedy construction pass. It visits every
  variable once, most frequent first, and gives it the polarity that occurs in
  at least as many clauses. Then it runs a GSAT-like local search. Each round
  picks an unsatisfied clause at random and evaluates flipping the variable of
  each of its literals. It keeps the flip with the largest net gain; ties go to
  the smallest "multiset cost", then to the earliest literal. It applies that
  flip when it gains, or when it gains nothing but satisfies the picked clause.
  The solver returns `(is_satisfiable, assignment, satisfied_count, steps)`.
- `Research.py` is an earlier greedy that works on literals. It keeps its
  literal-to-clause occurrence map up to date in place. When a decision
  satisfies clauses, `satisfy_clauses` counts them in a `Counter` and
  withdraws them from the sets of all their literals. So later decisions
  compare only the clauses that are still unsatisfied.
- `Research4.py` is the same greedy. It also records every decision with a
  sentence quoting the two counts it compared.

The modules follow the program's structure:

| module | file | what it is |
|---|---|---|
| `Cnf` | cnf.dfy | literals, clauses, assignments, trace entries |
| `Oracle` | oracle.dfy | `is_clause_satisfied`, `count_satisfied_clauses`, `get_literal_satisfaction_counts` |
| `Text` | text.dfy | `str.strip`, `str.split`, `str.startswith` and `int()` on a token, and the renderings used for round trips |
| `Dimacs` | dimacs.dfy | `parse_dimacs` of Latest_Research.py |
| `LegacyDimacs` | legacy_dimacs.dfy | `parse_dimacs` of Research.py (Research4.py has the same text) |
| `Ordering` | ordering.dfy | dict key order, and Python's stable `sorted(..., reverse=True)` |
| `Occurrence` | occurrence.dfy | the `defaultdict(set)` occurrence map and the loop that fills it |
| `Construction` | construction.dfy | the first pass of Latest_Research.py |
| `Refiner` | refiner.dfy | the local search of Latest_Research.py |
| `Solver` | solver.dfy | `solve_3sat` of Latest_Research.py |
| `ClauseIndex` | clause_index.dfy | a class with `variable_map`, the `satisfied_clauses` Counter and `satisfy_clauses` |
| `Incremental` | incremental.dfy | the greedy loop of Research.py and Research4.py |
| `Research` | research.dfy | `solve_3sat` of Research.py |
| `Research4` | research4.dfy | `solve_3sat` of Research4.py, with its step trace |

Each loop of the source is a method with loop invariants. Each method is
proved equal to a specification function, most of them recursive, and the
properties are proved about those functions. The local search is specified
by `Refiner.Search`, which applies `Refiner.RoundStep` round by round:
`Refiner.LocalSearch` returns exactly what `Search` gives, and
`Solver.Solve` reports its final assignment and its flips. The state `satisfy_clauses` mutates is a
class, `ClauseIndex.ClauseIndex`. Its invariant `Valid()` says two things:
- every counted clause was counted exactly once;
- each literal's set holds exactly the uncounted clauses that contain it.

The greedy of Research.py is specified by `Incremental.GreedyRun`, a function
of the prefix of the visit order. Random choices are a parameter `draws`:
round `k` of the local search targets position `draws(k) % n` of the `n`
unsatisfied clause indices.

## Model

| member | source | states |
|---|---|---|
| Oracle.TrueLiterals | Latest_Research.py:97-106 | a clause's number of true literals is at most its length, and positive exactly when the clause is satisfied |
| Oracle.CountSatisfied | Latest_Research.py:78-82 | the number of satisfied clauses never exceeds the number of clauses |
| Oracle.IsClauseSatisfied | Latest_Research.py:58-65 | the early-return scan answers true exactly when some literal's variable is assigned the value the literal's sign asks for; so an empty clause or one with only unassigned variables is unsatisfied |
| Oracle.CountSatisfiedClauses | Latest_Research.py:78-82 | the counting loop returns the number of satisfied clauses, which is the size of the set of their indices |
| Oracle.LiteralSatisfactionCounts | Latest_Research.py:97-106 | the Counter gives every clause its number of true literals, and a clause is a key exactly when it is satisfied |
| Oracle.CountIsCardinality | Latest_Research.py:78-82 | the count equals the number of indices of satisfied clauses |
| Oracle.AllSatisfiedIff | Latest_Research.py:238-241 | the count reaches `len(clauses)` exactly when every clause is satisfied |
| Text.TrimStart | Latest_Research.py:26 | stripping the front leaves no leading whitespace and never lengthens the line |
| Text.TrimEnd | Latest_Research.py:26 | stripping the back leaves no trailing whitespace and never lengthens the line |
| Text.TrimStartDropsSpace | Latest_Research.py:26 | stripping the front removes only whitespace: the line is the dropped whitespace followed by the result |
| Text.TrimEndDropsSpace | Latest_Research.py:26 | stripping the back removes only whitespace: the line is the result followed by the dropped whitespace |
| Text.WordLength | Latest_Research.py:30 | the leading token ends at the first whitespace character |
| Text.Split | Latest_Research.py:30 | every token of `split()` is non-empty and free of whitespace |
| Text.ParseInts | Latest_Research.py:35 | `map(int, words)` succeeds exactly when every token converts, and then gives each token's value in order |
| Text.DropLast | Latest_Research.py:35 | `[:-1]` keeps `[]` empty, and otherwise putting the dropped last element back gives the list again |
| Text.IntToString | Research4.py:51-54 | `str(n)` is a single token starting with `-` or a digit |
| Text.DigitsOfNat | Latest_Research.py:31 | the digits of a natural number read back as that number |
| Text.ParseIntOfString | Latest_Research.py:31 | `int(str(n)) == n` for every integer |
| Text.ParseIntsOfStrings | Latest_Research.py:35 | converting the rendering of a list of integers gives the list back |
| Text.SplitIgnoresOuterSpace | Research.py:7-14 | whitespace before the first word or after the last, such as a line's newline, does not change `split()` |
| Text.SplitJoin | Latest_Research.py:30 | `' '.join(words).split() == words` when every word is a token |
| Text.StripJoin | Latest_Research.py:26-29 | stripping leaves joined tokens unchanged, and they start with the first token |
| Dimacs.KindsAppend | Latest_Research.py:25-37 | each line is classified on its own: the kinds of two blocks of lines read in turn are the kinds of the first followed by those of the second |
| Dimacs.ScanKinds | Latest_Research.py:35-37 | no kept clause is empty |
| Dimacs.ParseDimacs | Latest_Research.py:21-44 | the reading loop returns the scanned formula, or `(0, [])` once any line raises; every clause it keeps is non-empty |
| Dimacs.FailureSticks | Latest_Research.py:41-43 | after a line has raised, later lines cannot undo the failure |
| Dimacs.ScanFailsIff | Latest_Research.py:38-43 | reading fails exactly when some line is malformed |
| Dimacs.NonClauseLineAddsNothing | Latest_Research.py:27-33 | a blank, `c`, `%` or `p cnf` line adds no clause and changes no outcome, wherever it stands |
| Dimacs.ClassifyHeaderText | Latest_Research.py:29-33 | a `p cnf V C` line sets the variable count from its third token |
| Dimacs.ClassifyClauseText | Latest_Research.py:35-37 | a rendered clause line gives back its literals, the terminating 0 dropped |
| Dimacs.ScanClauseKinds | Latest_Research.py:29-37 | a header followed by clause lines reads as that formula |
| Dimacs.ParseRender | Latest_Research.py:21-44 | reading a rendered formula of non-empty clauses gives back its variable count and clauses |
| LegacyDimacs.KindsAppend | Research.py:6-15 | each line is classified on its own: the kinds of two blocks of lines read in turn are the kinds of the first followed by those of the second |
| LegacyDimacs.ParseDimacs | Research.py:3-16 | the reading loop returns the formula, or the exception of the first malformed line, or the unbound-variable error when no header was read |
| LegacyDimacs.ErrorSticks | Research.py:5-15 | the first exception is the one that escapes |
| LegacyDimacs.EveryClauseLineKept | Research.py:9-16 | every clause line is kept, even one left empty by dropping its last token; `num_variables` is bound exactly when a header line was read |
| LegacyDimacs.FirstMalformedRaises | Research.py:10-14 | reading fails at the first malformed line |
| LegacyDimacs.NoMalformedScans | Research.py:6-15 | without a malformed line, reading runs to the end |
| LegacyDimacs.ClassifyHeaderText | Research.py:9-13 | a `p cnf V C` line is a header with both counts |
| LegacyDimacs.LeadingCharOfClauseText | Research.py:7 | a clause line whose first literal is not 0 starts with `-` or a non-zero digit, so it is not skipped |
| LegacyDimacs.ClassifyClauseText | Research.py:7-15 | a rendered clause line gives back its literals |
| LegacyDimacs.ScanClauseKinds | Research.py:9-15 | a header followed by clause lines reads as that formula, with the header's variable count bound |
| LegacyDimacs.ParseRender | Research.py:3-16 | reading a rendered formula gives it back when no clause is empty or starts with literal 0 |
| Ordering.Dedup | Research.py:22-25 | the keys of a dict filled from a sequence are its elements, each once |
| Ordering.DedupFirstAppearance | Research.py:22-25 | the dict's keys come in order of first appearance: of two keys, the earlier is the one that appears first in the input |
| Ordering.DedupAppend | Research.py:23-25 | filling the dict from two parts in turn appends the new keys of the second part |
| Ordering.Insert | Latest_Research.py:142-144 | inserting adds exactly the one element |
| Ordering.InsertSorted | Latest_Research.py:142-144 | inserting into a descending sequence keeps it descending |
| Ordering.SortDesc | Latest_Research.py:142-144 | `sorted(..., reverse=True)` is a permutation of its input, by non-increasing key, and keeps distinct elements distinct |
| Ordering.SortBreaksTies | Research.py:34 | the sort is stable: equal keys keep their input order |
| Ordering.SortAscStrict | Latest_Research.py:140 | `sorted` on distinct integers is strictly increasing with the same elements |
| Occurrence.Flatten | Latest_Research.py:133-135 | the literals, in file order, are exactly those of some clause |
| Occurrence.VarList | Latest_Research.py:140 | `abs(l)` of every literal, in file order |
| Occurrence.BuildOccurrences | Latest_Research.py:132-135 | every literal maps to exactly the indices of the clauses holding it; keys come in first-appearance order |
| Occurrence.AddClause | Latest_Research.py:134-135 | one clause adds its index to the set of each of its literals, and nothing else |
| Occurrence.OccurrencesExtend | Latest_Research.py:133-135 | adding clause `i` adds `i` to exactly the sets of its literals |
| Occurrence.FirstSeenIsLiterals | Research.py:34 | the map's keys are exactly the occurring literals, each once |
| Occurrence.VarsIff | Latest_Research.py:140 | a variable occurs exactly when one of its two literals does |
| Construction.VisitOrderVariables | Latest_Research.py:140-144 | the visit order holds every occurring variable exactly once |
| Construction.VisitOrderSorted | Latest_Research.py:140-144 | variables are visited by non-increasing total occurrences, ties by ascending id |
| Construction.PolarityIsMajority | Latest_Research.py:149-164 | a variable is set true exactly when it is positive and its positive literal occurs in at least as many clauses as its negation |
| Construction.ChosenLiteralHolds | Latest_Research.py:149-164 | the chosen literal is the more frequent sign of the variable, and the assignment makes it true |
| Construction.AssignInOrder | Latest_Research.py:146-164 | the loop sets exactly the visited variables, each to its majority polarity, with one step per variable in visit order |
| Construction.Construct | Latest_Research.py:137-164 | the pass builds the greedy assignment, with one step per variable in visit order that agrees with it |
| Refiner.UnsatisfiedIndices | Latest_Research.py:174-175 | the list holds exactly the indices of unsatisfied clauses |
| Refiner.GainIsMadeMinusBroken | Latest_Research.py:197-198 | the net gain of a flip is the clauses it repairs minus those it breaks |
| Refiner.CostAtMostBroken | Latest_Research.py:200-209 | the multiset cost never exceeds the number of clauses the flip breaks |
| Refiner.LexBestUnique | Latest_Research.py:211-221 | at most one candidate is the selected one |
| Refiner.LexBestExtend | Latest_Research.py:211-221 | the update rule keeps the best so far: a new candidate wins on larger gain, or equal gain at strictly smaller cost |
| Refiner.FlipMakesLiteralTrue | Latest_Research.py:191-195 | flipping towards a literal makes it true and changes no other variable |
| Refiner.CostOfFlip | Latest_Research.py:200-209 | the cost loop counts the clauses the flip breaks whose only true literal was the variable's prior literal |
| Refiner.EvaluateCandidate | Latest_Research.py:190-209 | the evaluation of one literal gives the candidate's variable, value, net gain and multiset cost |
| Refiner.BestOf | Latest_Research.py:211-221 | the update rule run over the candidates in order ends on the candidate with the largest gain, then the smallest cost, then the earliest |
| Refiner.SelectFlip | Latest_Research.py:183-221 | there is no candidate exactly when the target is empty; otherwise the kept one has the largest gain, then the smallest cost, then comes first |
| Refiner.RefineStep | Latest_Research.py:181-234 | a round takes exactly the decision `RoundStep` describes, which follows the selection and acceptance rule; it keeps the running count equal to the recomputed count and never lowers it; an accepted flip changes one variable of the formula and adds its gain |
| Refiner.RoundStepFollowsRule | Latest_Research.py:211-234 | a round makes no flip exactly when the selected candidate fails the acceptance rule (or the clause is empty); otherwise it flips the variable of the selected candidate towards its literal and adds its gain |
| Refiner.SearchRound | Latest_Research.py:174-234 | the search stops exactly when every clause holds; otherwise it targets the unsatisfied clause the draw picks and takes the decision of the selection and acceptance rule for that clause, which never loses |
| Refiner.AcceptFlip | Latest_Research.py:224-234 | accepting a non-losing flip of a variable of the formula preserves the search invariant |
| Refiner.SearchLoopStep | Latest_Research.py:173-234 | one pass of the loop body either stops with the search's end or advances the search by that round's decision, keeping the count invariant |
| Refiner.SearchBounds | Latest_Research.py:171-173 | the search runs at most `max_flips` rounds and makes at most one flip per round |
| Refiner.SearchEndsSatisfied | Latest_Research.py:174-178 | the search ends before the budget only when every clause holds |
| Refiner.SearchOutline | Latest_Research.py:171-234 | the whole search: at most `max_flips` rounds, at most one flip each, an early end only when every clause holds, and no flip when the start already satisfies every clause |
| Refiner.LocalSearch | Latest_Research.py:171-234 | the loop ends with exactly the assignment, flips and rounds of `Search` from the initial assignment under the draws; the final count is that of the final assignment and the initial count plus the flips' gains, so it never falls; at most `max_flips` rounds and one flip per round; a round budget left unused means every clause holds; an assignment already satisfying everything is returned unchanged |
| Solver.FirstPass | Latest_Research.py:132-167 | the first pass yields the greedy assignment over exactly the formula's variables, and its trace |
| Solver.Solve | Latest_Research.py:125-241 | an empty formula gives `(False, {}, 0, [])`; otherwise the final assignment is the one `Search` reaches from the greedy assignment, the trace is the construction steps followed by `Search`'s flips, and the formula is reported satisfiable exactly when the final assignment satisfies all clauses, with the assignment only then; the count is the final assignment's and at least the greedy one's; the trace is the construction steps followed by at most `max_flips` non-losing flips; a greedy assignment that already satisfies everything is returned as is |
| Solver.FlipsFollowChoices | Latest_Research.py:239-241 | the returned steps start with the construction steps, and every later step is a non-losing flip |
| Solver.SolveFile | Latest_Research.py:125-129 | a file that fails to read or has no clause reports `(False, {}, 0, [])`; a success satisfies every parsed clause |
| Solver.GreedySetsOneAndTwo | Latest_Research.py:146-164 | on {(1,2,-3), (-1,2,3), (1,-2,-3)} the first pass sets 1 and 2 true |
| Solver.GreedySolvesThreeClauses | Latest_Research.py:146-164 | on that formula the first pass alone satisfies all three clauses |
| Solver.SolveThreeClauses | Latest_Research.py:236-239 | that formula is reported satisfiable with three clauses satisfied, whatever the draws |
| Solver.OppositeUnitsUnsatisfiable | Latest_Research.py:58-82 | no assignment satisfies both (1) and (-1) |
| Solver.SolveOppositeUnits | Latest_Research.py:173-241 | {(1), (-1)} is reported unsatisfiable, with one clause satisfied and no assignment, whatever the draws |
| ClauseIndex.ClauseIndex.constructor | Research.py:22-28 | the index starts as the built occurrence map with nothing counted |
| ClauseIndex.ClauseIndex.Remaining | Research.py:48-49 | `len(variable_map[l])` is the number of uncounted clauses holding `l` |
| ClauseIndex.ClauseIndex.CountedClauses | Research.py:60-65 | `len(satisfied_clauses)` equals the number of positive counts and is at most the number of clauses |
| ClauseIndex.ClauseIndex.SatisfyClauses | Research.py:36-41 | the counted clauses become the old ones plus every clause holding the literal, and the invariant holds again |
| ClauseIndex.ClauseIndex.CountClause | Research.py:37-41 | counting an uncounted clause adds exactly it and keeps every count at 1 |
| ClauseIndex.ClauseIndex.Discard | Research.py:40-41 | the clause is withdrawn from exactly the sets of its literals |
| ClauseIndex.WithdrawClause | Research.py:39-41 | after the withdrawal each literal's set again holds exactly its uncounted clauses |
| Incremental.DecideAt | Research.py:48-54 | the visited literal is chosen when its remaining set is at least as large as its negation's, even when the literal is negative |
| Incremental.VisitLiteral | Research.py:45-57 | one iteration skips a literal whose variable is set with either sign, and otherwise decides it and counts what the choice satisfies |
| Incremental.VisitAll | Research.py:44-57 | the loop over the visit order produces the run of the specification and keeps the index valid |
| Incremental.Greedy | Research.py:21-57 | the whole pass builds the map, sorts, and ends in the specified run |
| Incremental.LiteralOrderIsSorted | Research.py:34 | the visit order holds every occurring literal once, by non-increasing initial set size, ties by the map's key order, which is the order of first appearance in the clauses |
| Incremental.RankFollowsFirstAppearance | Research.py:22-34 | a list sorted with ties in the map's key order has its ties in order of first appearance in the clauses |
| Incremental.RunSetsEveryVariable | Research.py:44-56 | a run sets exactly the variables of the literals it visited |
| Incremental.SetsEveryVariable | Research.py:44-56 | the pass sets exactly the variables of the formula |
| Incremental.RunMakesChosenTrue | Research.py:44-57 | without literal 0, the literals the assignment makes true are exactly the chosen ones |
| Incremental.VisitCoversChosen | Research.py:56-57 | each decision keeps the counted clauses those holding a chosen literal |
| Incremental.RunCoversChosen | Research.py:44-57 | the counted clauses are exactly those holding a chosen literal |
| Incremental.CoveredIsSatisfied | Research.py:44-57 | without literal 0, a clause is counted exactly when `set_variables` satisfies it |
| Incremental.CountedAreSatisfied | Research.py:59-66 | without literal 0, the counter's keys are the satisfied clauses and their number is the oracle's count |
| Research.Solve | Research.py:18-66 | the solver returns the report of the specified run: satisfiable with the assignment when every clause was counted, else the number counted |
| Research.SolveFile | Research.py:18-19 | a reading exception escapes; otherwise the report of the parsed formula |
| Research.ReportIsConsistent | Research.py:59-66 | the count is at most the number of clauses; success means exactly a full count and exactly an assignment, which covers every variable of the formula |
| Research.CoveredAreClauses | Research.py:36-41 | at most every clause is counted |
| Research.AssignmentCoversFormula | Research.py:44-61 | the assignment's keys are exactly the formula's variables |
| Research.ReportIsSound | Research.py:59-66 | without literal 0, the count is the oracle's count for the built assignment, and success means every clause holds |
| Research.CoveredGrows | Research.py:36-41 | counted clauses stay counted |
| Research.FirstDecisionCounts | Research.py:44-57 | the first decision counts at least one clause |
| Research.SomeClauseCounted | Research.py:44-57 | a formula with a non-empty clause reports at least one clause counted |
| Research.EmptyFormulaSatisfiable | Research.py:60-62 | the empty formula is reported satisfiable with the empty assignment |
| Research.OppositeUnitsReported | Research.py:44-66 | {(x), (-x)} is reported unsatisfiable with one clause counted |
| Research4.Solve | Research4.py:21-65 | the result is Research.py's, plus one step per decision |
| Research4.SolveFile | Research4.py:21-22 | a reading exception escapes; otherwise the result for the parsed formula |
| Research4.ReasonPolarity | Research4.py:49-54 | the sentence has fourteen words, starts with "Chose", and its third word says which sign won |
| Research4.ReasonSplits | Research4.py:49-54 | splitting the sentence gives back its words |
| Research4.ReasonReadsBack | Research4.py:49-54 | the sentence's four numbers read back as the chosen literal, its count, the other literal and its count |
| Research4.StepsAgreeWithAssignment | Research4.py:56-57 | every step's variable and value are those in `set_variables`, literal 0 included (deciding it sets variable 0 to false) |
| Research4.VisitKeepsChoicesAgree | Research4.py:43-57 | a visit keeps every decision's variable set to the chosen literal's polarity, since a decision only sets a variable no earlier one set |
| Research4.RunChoicesAgree | Research4.py:42-57 | every decision of the pass agrees with the assignment it builds |
| Research4.VisitKeepsStepsFresh | Research4.py:43-57 | a decision names a variable no earlier step named |
| Research4.RunStepsFresh | Research4.py:42-57 | every step names a set variable, and no two steps name the same one |
| Research4.SetVariablesHaveSteps | Research4.py:42-57 | every variable in `set_variables` has its step |

## Left out

- Opening files, `FileNotFoundError` and printing. The readers take the file's lines. Latest_Research.py's catch-all `except` becomes the `(0, [])` result. The exceptions the older readers raise become `LegacyDimacs.Err`.
- `run_instances`, the module-level timing, and the example drivers with their hard-coded paths. These are I/O.
- `random.choice`. It becomes the parameter `draws`, so every property holds for every sequence of draws.
- The `-float('inf')` and `float('inf')` sentinels. They become "no candidate yet" (`Option`).
- The reason strings of Latest_Research.py. Trace entries keep the numbers the sentences quote. Research4.py's sentence is modelled as text.
- `int()` on tokens. It accepts an optional sign and ASCII digits. Underscores between digits and non-ASCII digits, which Python also accepts, are left out. So is the limit on decimal conversions of Python 3.11 and later (and of the 3.7-3.10 security releases): a token of more than 4300 digits raises `ValueError` there, so Latest_Research.py returns `(0, [])` and Research.py raises, while `Text.ParseInt` accepts the token.
- Python set iteration order in `satisfy_clauses`. The loop takes the indices in an arbitrary order, and its result does not depend on it.
- `defaultdict` reads that insert an empty set. Such reads (`variable_map[-var]`) add a key but never change a set, so `Lookup` reads a missing key as empty.
- Research4.Solve computes the steps from the decisions after the loop, instead of appending them inside it. The list is the same.
- Unreadable or malformed input: `parse_dimacs` turns any exception into `(0, [])` (Latest_Research.py:21-44), and `solve_3sat` returns `(False, {}, 0, [])` when there is no clause (Latest_Research.py:127-129). The model does the same (`Solver.SolveFile`).
- Research.ReportIsSound: proved only for formulas without literal 0. A line such as `1 0 2 0` gives the clause `[1, 0, 2]`. Choosing literal 0 counts clauses that the assignment does not satisfy. The consistency lemmas hold without that hypothesis.
- Incremental.CountedAreSatisfied: proved only for formulas without literal 0, because choosing literal 0 counts clauses that the assignment does not satisfy.
- Incremental.CoveredIsSatisfied: proved only for formulas without literal 0, for the same reason as Incremental.CountedAreSatisfied.
- Incremental.RunMakesChosenTrue: proved only for formulas without literal 0, because choosing literal 0 sets variable 0 to false, which makes literal 0 chosen but not true.
- Solver.SolveFile: states the shape of the result and the soundness of success. It does not restate the trace; `Solver.Solve` states that.
