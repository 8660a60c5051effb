/** `solve_3sat` of Latest_Research.py: read the formula, build the occurrence
    map, run the construction pass, refine by local search, and report. */
module Solver {
  import opened Cnf
  import opened Oracle
  import opened Occurrence
  import opened Construction
  import opened Refiner
  import Dimacs

  /** The four-tuple `(is_satisfiable, assignment, satisfied_count, steps)`;
      the assignment is `{}` for an empty formula, `None` on failure. */
  datatype Outcome = Outcome(satisfiable: bool, assignment: Option<Assignment>, count: nat, steps: seq<Decision>)

  predicate AllSatisfied(clauses: seq<Clause>, a: Assignment)
  {
    forall i :: 0 <= i < |clauses| ==> Satisfied(clauses[i], a)
  }

  /** The trace of the construction pass: one choice per variable, in visit order. */
  function ConstructionTrace(clauses: seq<Clause>): seq<Decision>
  {
    var order := VisitOrder(clauses);
    seq(|order|, k requires 0 <= k < |order| => ChoiceStep(clauses, order[k]))
  }

  /** Building the occurrence map and running the construction pass over it. */
  method FirstPass(clauses: seq<Clause>) returns (a: Assignment, steps: seq<Decision>)
    ensures a == GreedyAssignment(clauses) && a.Keys == Vars(clauses)
    ensures steps == ConstructionTrace(clauses)
  {
    var m, firstSeen := BuildOccurrences(clauses);
    a, steps := Construct(clauses, m);
  }

  /** The solver on a parsed formula. `final` is the assignment the search
      ended with, which the result hides on failure. */
  method Solve(numVars: int, clauses: seq<Clause>, draws: nat -> nat) returns (r: Outcome, ghost final: Assignment)
    ensures clauses == [] ==> r == Outcome(false, Some(map[]), 0, [])
    ensures clauses != [] ==>
              var e := Search(clauses, GreedyAssignment(clauses), 0, MaxFlips(numVars), draws);
              final == e.assignment && r.steps == ConstructionTrace(clauses) + e.flips
    ensures clauses != [] ==> r.count == CountSatisfied(clauses, final) && final.Keys == Vars(clauses)
    ensures clauses != [] ==> (r.satisfiable <==> AllSatisfied(clauses, final))
    ensures clauses != [] && r.satisfiable ==> r.assignment == Some(final) && r.count == |clauses|
    ensures clauses != [] && !r.satisfiable ==> r.assignment == None && r.count < |clauses|
    ensures clauses != [] ==> r.count >= CountSatisfied(clauses, GreedyAssignment(clauses))
    ensures clauses != [] ==>
              && ConstructionTrace(clauses) <= r.steps
              && |r.steps| <= |ConstructionTrace(clauses)| + MaxFlips(numVars)
              && (forall k :: |ConstructionTrace(clauses)| <= k < |r.steps| ==> r.steps[k].Flipped? && r.steps[k].gain >= 0)
    ensures clauses != [] && AllSatisfied(clauses, GreedyAssignment(clauses)) ==>
              r.satisfiable && final == GreedyAssignment(clauses) && r.steps == ConstructionTrace(clauses)
  {
    if clauses == [] {
      return Outcome(false, Some(map[]), 0, []), map[];
    }
    var a, steps := FirstPass(clauses);
    var best, count, flips, rounds := LocalSearch(clauses, a, numVars, draws);
    final := best;
    SameKeys(a, best, Vars(clauses));
    var finalCount := CountSatisfiedClauses(clauses, best);
    AllSatisfiedIff(clauses, best);
    var trace := steps + flips;
    FlipsFollowChoices(steps, flips);
    if finalCount == |clauses| {
      r := Outcome(true, Some(best), |clauses|, trace);
    } else {
      r := Outcome(false, None, finalCount, trace);
    }
  }

  /** A map that keeps every key of one whose keys are `vs` and adds only
      members of `vs` has exactly the keys `vs`. */
  lemma SameKeys(a0: Assignment, a: Assignment, vs: set<int>)
    requires a0.Keys == vs
    requires forall v :: v in a0 ==> v in a
    requires forall v :: v in a ==> v in a0 || v in vs
    ensures a.Keys == vs
  {
    assert forall v :: v in a <==> v in vs;
  }

  /** Appending the flips keeps the choices as a prefix and puts only
      non-losing flips after them. */
  lemma FlipsFollowChoices(steps: seq<Decision>, flips: seq<Decision>)
    requires forall k :: 0 <= k < |flips| ==> flips[k].Flipped? && flips[k].gain >= 0
    ensures steps <= steps + flips
    ensures forall k :: |steps| <= k < |steps + flips| ==> (steps + flips)[k].Flipped? && (steps + flips)[k].gain >= 0
  {
    forall k | |steps| <= k < |steps + flips|
      ensures (steps + flips)[k].Flipped? && (steps + flips)[k].gain >= 0
    {
      assert (steps + flips)[k] == flips[k - |steps|];
    }
  }

  /** The solver on the lines of a DIMACS file: a file that fails to parse
      reads as the empty formula and reports `(False, {}, 0, [])`. */
  method SolveFile(lines: seq<string>, draws: nat -> nat) returns (r: Outcome)
    ensures Dimacs.Scan(lines) == None ==> r == Outcome(false, Some(map[]), 0, [])
    ensures Dimacs.Parsed(lines).clauses == [] ==> r == Outcome(false, Some(map[]), 0, [])
    ensures r.satisfiable ==>
              r.assignment.Some? && AllSatisfied(Dimacs.Parsed(lines).clauses, r.assignment.value)
              && r.count == |Dimacs.Parsed(lines).clauses|
    ensures !r.satisfiable && Dimacs.Parsed(lines).clauses != [] ==>
              r.assignment == None && r.count < |Dimacs.Parsed(lines).clauses|
  {
    var numVars, clauses := Dimacs.ParseDimacs(lines);
    ghost var final;
    r, final := Solve(numVars, clauses, draws);
  }

  /** The clause set {(1, 2, -3), (-1, 2, 3), (1, -2, -3)}. */
  function ThreeClauses(): seq<Clause>
  {
    [[1, 2, -3], [-1, 2, 3], [1, -2, -3]]
  }

  /** The construction pass alone satisfies the three clauses: 1 and 2 occur
      positively in two clauses and negatively in one, so both are set true. */
  lemma GreedySolvesThreeClauses()
    ensures AllSatisfied(ThreeClauses(), GreedyAssignment(ThreeClauses()))
  {
    var cs := ThreeClauses();
    var g := GreedyAssignment(cs);
    GreedySetsOneAndTwo();
    forall i | 0 <= i < |cs|
      ensures Satisfied(cs[i], g)
    {
      if i == 0 {
        assert LiteralTrue(cs[0][0], g);
      } else if i == 1 {
        assert LiteralTrue(cs[1][1], g);
      } else {
        assert LiteralTrue(cs[2][0], g);
      }
    }
  }

  lemma GreedySetsOneAndTwo()
    ensures 1 in GreedyAssignment(ThreeClauses()) && GreedyAssignment(ThreeClauses())[1]
    ensures 2 in GreedyAssignment(ThreeClauses()) && GreedyAssignment(ThreeClauses())[2]
  {
    var cs := ThreeClauses();
    assert Occurrences(cs, 1) == {0, 2};
    assert Occurrences(cs, -1) == {1};
    assert Occurrences(cs, 2) == {0, 1};
    assert Occurrences(cs, -2) == {2};
    assert 1 in Vars(cs) && 2 in Vars(cs) by {
      assert 1 in cs[0] && 2 in cs[0];
      assert Var(1) == 1 && Var(2) == 2;
    }
  }

  /** The three clauses are reported satisfiable with all three counted. */
  method SolveThreeClauses(draws: nat -> nat) returns (r: Outcome)
    ensures r.satisfiable && r.count == 3 && r.assignment.Some?
  {
    GreedySolvesThreeClauses();
    ghost var final;
    r, final := Solve(3, ThreeClauses(), draws);
  }

  /** No assignment satisfies both (1) and (-1). */
  lemma OppositeUnitsUnsatisfiable(a: Assignment)
    ensures !AllSatisfied([[1], [-1]], a)
    ensures CountSatisfied([[1], [-1]], a) <= 1
  {
    var cs: seq<Clause> := [[1], [-1]];
    assert Satisfied(cs[0], a) ==> LiteralTrue(1, a);
    assert Satisfied(cs[1], a) ==> LiteralTrue(-1, a);
    assert !(LiteralTrue(1, a) && LiteralTrue(-1, a));
    AllSatisfiedIff(cs, a);
  }

  /** Whatever the draws, {(1), (-1)} is reported unsatisfiable with one
      clause satisfied and no assignment. */
  method SolveOppositeUnits(draws: nat -> nat) returns (r: Outcome)
    ensures !r.satisfiable && r.count == 1 && r.assignment == None
  {
    var cs: seq<Clause> := [[1], [-1]];
    assert Occurrences(cs, 1) == {0};
    assert Occurrences(cs, -1) == {1};
    assert 1 in Vars(cs) by {
      assert 1 in cs[0];
      assert Var(1) == 1;
    }
    assert Satisfied(cs[0], GreedyAssignment(cs)) by {
      assert LiteralTrue(cs[0][0], GreedyAssignment(cs));
    }
    assert CountSatisfied(cs, GreedyAssignment(cs)) >= 1 by {
      assert cs[..1] == [[1]];
    }
    ghost var final;
    r, final := Solve(1, cs, draws);
    OppositeUnitsUnsatisfiable(final);
  }
}
