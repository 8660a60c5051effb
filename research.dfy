/** `solve_3sat` of Research.py: the incremental greedy pass alone, reported
    as `(is_satisfiable, assignment, satisfied_count)`. */
module Research {
  import opened Cnf
  import opened Oracle
  import opened Occurrence
  import opened ClauseIndex
  import opened Incremental
  import LegacyDimacs

  /** The three-tuple the solver returns; the assignment is `None` on failure. */
  datatype Outcome = Outcome(satisfiable: bool, assignment: Option<map<int, bool>>, count: nat)

  /** The result as a function of the formula: satisfiable when every clause
      was counted, otherwise the number of counted clauses. */
  function Report(clauses: seq<Clause>): Outcome
  {
    var r := GreedyRun(clauses, LiteralOrder(clauses));
    if |r.covered| == |clauses| then Outcome(true, Some(r.setVars), |clauses|)
    else Outcome(false, None, |r.covered|)
  }

  /** The solver on a parsed formula. */
  method Solve(clauses: seq<Clause>) returns (r: Outcome)
    ensures r == Report(clauses)
  {
    var setVars, index, choices := Greedy(clauses);
    SameKeys(index.satisfied, GreedyRun(clauses, LiteralOrder(clauses)).covered);
    if index.CountedClauses() == |clauses| {
      var assignment := map v | v in setVars :: setVars[v];
      assert assignment == setVars;
      r := Outcome(true, Some(assignment), |clauses|);
    } else {
      r := Outcome(false, None, PositiveCount(index.satisfied));
    }
  }

  /** The solver on the lines of a DIMACS file; the reader's exceptions escape. */
  method SolveFile(lines: seq<string>) returns (r: LegacyDimacs.Result<Outcome>)
    ensures LegacyDimacs.Parsed(lines).Err? ==> r == LegacyDimacs.Err(LegacyDimacs.Parsed(lines).error)
    ensures LegacyDimacs.Parsed(lines).Ok? ==> r == LegacyDimacs.Ok(Report(LegacyDimacs.Parsed(lines).value.clauses))
  {
    var parsed := LegacyDimacs.ParseDimacs(lines);
    if parsed.Err? {
      return LegacyDimacs.Err(parsed.error);
    }
    var outcome := Solve(parsed.value.clauses);
    r := LegacyDimacs.Ok(outcome);
  }

  /** The report is consistent: the count never exceeds the clauses, success
      is exactly a full count, and only success carries an assignment, which
      then gives a value to every variable of the formula. */
  lemma ReportIsConsistent(clauses: seq<Clause>)
    ensures Report(clauses).count <= |clauses|
    ensures Report(clauses).satisfiable <==> Report(clauses).count == |clauses|
    ensures Report(clauses).satisfiable <==> Report(clauses).assignment.Some?
    ensures Report(clauses).assignment.Some? ==> Report(clauses).assignment.value.Keys == Vars(clauses)
  {
    CoveredAreClauses(clauses, LiteralOrder(clauses));
    AssignmentCoversFormula(clauses);
  }

  /** The counted clauses are clause indices, so at most all of them. */
  lemma CoveredAreClauses(clauses: seq<Clause>, order: seq<int>)
    ensures |GreedyRun(clauses, order).covered| <= |clauses|
  {
    var r := GreedyRun(clauses, order);
    assert forall j :: j in r.covered ==> j < |clauses| by {
      RunCoversChosen(clauses, order);
    }
    RangeSubset(r.covered, |clauses|);
  }

  lemma AssignmentCoversFormula(clauses: seq<Clause>)
    ensures GreedyRun(clauses, LiteralOrder(clauses)).setVars.Keys == Vars(clauses)
  {
    var a := GreedyRun(clauses, LiteralOrder(clauses)).setVars;
    SetsEveryVariable(clauses);
    assert forall v :: v in a.Keys <==> v in Vars(clauses);
  }

  /** On a formula without literal 0 the report is sound: success means the
      assignment satisfies every clause, and the count is the number of
      clauses the assignment built satisfies. */
  lemma ReportIsSound(clauses: seq<Clause>)
    requires NoZeroLiteral(clauses)
    ensures Report(clauses).count == CountSatisfied(clauses, GreedyRun(clauses, LiteralOrder(clauses)).setVars)
    ensures Report(clauses).satisfiable <==>
              forall i :: 0 <= i < |clauses| ==> Satisfied(clauses[i], GreedyRun(clauses, LiteralOrder(clauses)).setVars)
  {
    var a := GreedyRun(clauses, LiteralOrder(clauses)).setVars;
    CountedAreSatisfied(clauses);
    AllSatisfiedIff(clauses, a);
  }

  /** A formula with a non-empty clause reports a count of at least one. */
  lemma SomeClauseCounted(clauses: seq<Clause>)
    requires exists i :: 0 <= i < |clauses| && clauses[i] != []
    ensures Report(clauses).count >= 1
  {
    var order := LiteralOrder(clauses);
    assert order != [] && Occurrences(clauses, order[0]) != {} by {
      var i :| 0 <= i < |clauses| && clauses[i] != [];
      LiteralOrderIsSorted(clauses);
      assert i in Occurrences(clauses, clauses[i][0]);
      assert clauses[i][0] in order;
      assert order[0] in order;
    }
    FirstDecisionCounts(clauses, order);
    ReportIsConsistent(clauses);
  }

  /** The first decision counts at least one clause when the first literal
      occurs, and counted clauses stay counted. */
  lemma FirstDecisionCounts(clauses: seq<Clause>, order: seq<int>)
    requires order != [] && Occurrences(clauses, order[0]) != {}
    ensures GreedyRun(clauses, order).covered != {}
  {
    var l := order[0];
    assert order[..1] == [l];
    assert GreedyRun(clauses, order[..1]) == Visit(clauses, Run(map[], {}, []), l);
    var pos := Occurrences(clauses, l);
    var neg := Occurrences(clauses, -l);
    assert pos - {} == pos && neg - {} == neg;
    assert |pos| >= 1;
    assert GreedyRun(clauses, order[..1]).covered != {};
    CoveredGrows(clauses, order, 1);
  }

  /** The clauses counted after a prefix of the order stay counted. */
  lemma {:induction false} CoveredGrows(clauses: seq<Clause>, order: seq<int>, k: nat)
    requires k <= |order|
    ensures GreedyRun(clauses, order[..k]).covered <= GreedyRun(clauses, order).covered
  {
    if k < |order| {
      var n := |order| - 1;
      assert order[..n][..k] == order[..k];
      CoveredGrows(clauses, order[..n], k);
      var r := GreedyRun(clauses, order[..n]);
      assert GreedyRun(clauses, order) == Visit(clauses, r, order[n]);
      assert r.covered <= Visit(clauses, r, order[n]).covered;
    } else {
      assert order[..k] == order;
    }
  }

  /** Unlike Latest_Research.py, the empty formula is reported satisfiable
      with the empty assignment. */
  lemma EmptyFormulaSatisfiable()
    ensures Report([]) == Outcome(true, Some(map[]), 0)
  {
    LiteralOrderIsSorted([]);
    assert forall l :: Occurrences([], l) == {};
    assert LiteralOrder([]) == [];
  }

  /** A pair of opposite unit clauses {(x), (-x)} is reported unsatisfiable
      with one clause counted. */
  lemma OppositeUnitsReported(x: int)
    requires x != 0
    ensures Report([[x], [-x]]) == Outcome(false, None, 1)
  {
    OppositeUnitsCounted([[x], [-x]], x);
  }

  lemma OppositeUnitsCounted(cs: seq<Clause>, x: int)
    requires x != 0 && |cs| == 2 && cs[0] == [x] && cs[1] == [-x]
    ensures Report(cs) == Outcome(false, None, 1)
  {
    OppositeUnitsAtLeastOne(cs, x);
    OppositeUnitsAtMostOne(cs, x);
    ReportIsConsistent(cs);
  }

  lemma OppositeUnitsAtLeastOne(cs: seq<Clause>, x: int)
    requires |cs| == 2 && cs[0] == [x] && cs[1] == [-x]
    ensures Report(cs).count >= 1
  {
    assert cs[0] != [];
    SomeClauseCounted(cs);
  }

  lemma OppositeUnitsAtMostOne(cs: seq<Clause>, x: int)
    requires x != 0 && |cs| == 2 && cs[0] == [x] && cs[1] == [-x]
    ensures Report(cs).count <= 1 && !Report(cs).satisfiable
  {
    assert NoZeroLiteral(cs);
    ReportIsSound(cs);
    OppositeUnitsClash(cs, x, GreedyRun(cs, LiteralOrder(cs)).setVars);
  }

  /** No assignment satisfies both (x) and (-x). */
  lemma OppositeUnitsClash(cs: seq<Clause>, x: int, a: map<int, bool>)
    requires |cs| == 2 && cs[0] == [x] && cs[1] == [-x]
    ensures CountSatisfied(cs, a) <= 1
    ensures !(forall i :: 0 <= i < |cs| ==> Satisfied(cs[i], a))
  {
    assert Satisfied(cs[0], a) ==> LiteralTrue(x, a);
    assert Satisfied(cs[1], a) ==> LiteralTrue(-x, a);
    assert !(LiteralTrue(x, a) && LiteralTrue(-x, a));
    AllSatisfiedIff(cs, a);
  }
}
