/** `solve_3sat` of Research4.py: the same incremental greedy pass as
    Research.py, which also records each decision with a sentence giving
    the two remaining occurrence counts it compared. */
module Research4 {
  import opened Cnf
  import opened Oracle
  import opened Occurrence
  import opened ClauseIndex
  import opened Text
  import opened Incremental
  import Research
  import LegacyDimacs

  /** `(abs(chosen_var), chosen_var > 0, reason)`. */
  datatype Step = Step(variable: nat, value: bool, reason: string)

  /** The four-tuple the solver returns: Research.py's three fields and the steps. */
  datatype Outcome = Outcome(satisfiable: bool, assignment: Option<map<int, bool>>, count: nat, steps: seq<Step>)

  /** The words of the reason sentence of a decision. Both format strings
      name the chosen literal and its count, then the other literal (the
      negation of the chosen one) and its count; only the polarity word
      differs. */
  function ReasonWords(c: Choice): seq<string>
  {
    var positive := c.pos >= c.neg;
    var chosen := if positive then c.literal else -c.literal;
    var chosenCount := if positive then c.pos else c.neg;
    var otherCount := if positive then c.neg else c.pos;
    ["Chose", IntToString(chosen), if positive then "(positive)" else "(negative)", "because", "it", "appears", "in",
     IntToString(chosenCount), "clauses", "vs", IntToString(-chosen), "in", IntToString(otherCount), "clauses"]
  }

  /** The reason sentence: the words separated by single spaces. */
  function Reason(c: Choice): string
  {
    Join(ReasonWords(c))
  }

  /** The step recorded for a decision. */
  function StepOf(c: Choice): Step
  {
    Step(Var(c.chosen), c.chosen > 0, Reason(c))
  }

  /** The steps of a sequence of decisions, in order. */
  function Steps(choices: seq<Choice>): (steps: seq<Step>)
    ensures |steps| == |choices|
    ensures forall k :: 0 <= k < |choices| ==> steps[k] == StepOf(choices[k])
  {
    seq(|choices|, k requires 0 <= k < |choices| => StepOf(choices[k]))
  }

  /** The solver on a parsed formula: Research.py's result plus the steps. */
  method Solve(clauses: seq<Clause>) returns (r: Outcome)
    ensures r.satisfiable == Research.Report(clauses).satisfiable
    ensures r.assignment == Research.Report(clauses).assignment
    ensures r.count == Research.Report(clauses).count
    ensures r.steps == Steps(GreedyRun(clauses, LiteralOrder(clauses)).choices)
  {
    var setVars, index, choices := Greedy(clauses);
    var steps := Steps(choices);
    SameKeys(index.satisfied, GreedyRun(clauses, LiteralOrder(clauses)).covered);
    if index.CountedClauses() == |clauses| {
      var assignment := map v | v in setVars :: setVars[v];
      assert assignment == setVars;
      r := Outcome(true, Some(assignment), |clauses|, steps);
    } else {
      r := Outcome(false, None, PositiveCount(index.satisfied), steps);
    }
  }

  /** The solver on the lines of a DIMACS file; the reader's exceptions escape. */
  method SolveFile(lines: seq<string>) returns (r: LegacyDimacs.Result<Outcome>)
    ensures LegacyDimacs.Parsed(lines).Err? ==> r == LegacyDimacs.Err(LegacyDimacs.Parsed(lines).error)
    ensures LegacyDimacs.Parsed(lines).Ok? ==>
              r.Ok? && r.value.count == Research.Report(LegacyDimacs.Parsed(lines).value.clauses).count
              && r.value.satisfiable == Research.Report(LegacyDimacs.Parsed(lines).value.clauses).satisfiable
              && r.value.assignment == Research.Report(LegacyDimacs.Parsed(lines).value.clauses).assignment
              && r.value.steps == Steps(GreedyRun(LegacyDimacs.Parsed(lines).value.clauses,
                                                  LiteralOrder(LegacyDimacs.Parsed(lines).value.clauses)).choices)
  {
    var parsed := LegacyDimacs.ParseDimacs(lines);
    if parsed.Err? {
      return LegacyDimacs.Err(parsed.error);
    }
    var outcome := Solve(parsed.value.clauses);
    r := LegacyDimacs.Ok(outcome);
  }

  /** The sentence reads back: its fourteen words start with "Chose", the
      third says which polarity won, and the four numbers in it convert back
      to the chosen literal, its count, the other literal and its count. */
  lemma ReasonReadsBack(c: Choice)
    requires c.chosen == (if c.pos >= c.neg then c.literal else -c.literal)
    ensures |Split(Reason(c))| == 14 && Split(Reason(c))[0] == "Chose"
    ensures Split(Reason(c))[2] == "(positive)" <==> c.pos >= c.neg
    ensures ParseInt(Split(Reason(c))[1]) == Some(c.chosen)
    ensures ParseInt(Split(Reason(c))[7]) == Some(if c.pos >= c.neg then c.pos else c.neg)
    ensures ParseInt(Split(Reason(c))[10]) == Some(-c.chosen)
    ensures ParseInt(Split(Reason(c))[12]) == Some(if c.pos >= c.neg then c.neg else c.pos)
  {
    ReasonSplits(c);
    ReasonPolarity(c);
    ReasonWordsReadBack(c);
  }

  lemma ReasonWordsReadBack(c: Choice)
    requires c.chosen == (if c.pos >= c.neg then c.literal else -c.literal)
    ensures ParseInt(ReasonWords(c)[1]) == Some(c.chosen)
    ensures ParseInt(ReasonWords(c)[7]) == Some(if c.pos >= c.neg then c.pos else c.neg)
    ensures ParseInt(ReasonWords(c)[10]) == Some(-c.chosen)
    ensures ParseInt(ReasonWords(c)[12]) == Some(if c.pos >= c.neg then c.neg else c.pos)
  {
    var w := ReasonWords(c);
    WordsReadBack(w, c.chosen, if c.pos >= c.neg then c.pos else c.neg, if c.pos >= c.neg then c.neg else c.pos);
  }

  /** The third word names the winning polarity. */
  lemma ReasonPolarity(c: Choice)
    ensures |ReasonWords(c)| == 14 && ReasonWords(c)[0] == "Chose"
    ensures ReasonWords(c)[2] == "(positive)" <==> c.pos >= c.neg
  {
    if c.pos < c.neg {
      assert ReasonWords(c)[2][1] == 'n';
    }
  }

  /** The numbers of the sentence convert back. */
  lemma WordsReadBack(w: seq<string>, chosen: int, chosenCount: int, otherCount: int)
    requires |w| == 14
    requires w[1] == IntToString(chosen) && w[7] == IntToString(chosenCount)
    requires w[10] == IntToString(-chosen) && w[12] == IntToString(otherCount)
    ensures ParseInt(w[1]) == Some(chosen) && ParseInt(w[7]) == Some(chosenCount)
    ensures ParseInt(w[10]) == Some(-chosen) && ParseInt(w[12]) == Some(otherCount)
  {
    ParseIntOfString(chosen);
    ParseIntOfString(chosenCount);
    ParseIntOfString(-chosen);
    ParseIntOfString(otherCount);
  }

  /** `reason.split()` gives the words back. */
  lemma ReasonSplits(c: Choice)
    ensures Split(Reason(c)) == ReasonWords(c)
  {
    var words := ReasonWords(c);
    ConstantWords();
    assert forall k :: 0 <= k < |words| ==> IsWord(words[k]);
    SplitJoin(words);
  }

  /** The fixed words of the sentence are split tokens. */
  lemma ConstantWords()
    ensures IsWord("Chose") && IsWord("(positive)") && IsWord("(negative)") && IsWord("because")
    ensures IsWord("it") && IsWord("appears") && IsWord("in") && IsWord("clauses") && IsWord("vs")
  {
  }

  /** Every step names a variable the assignment sets, with the value the
      assignment gives it; this holds even when literal 0 is visited, which
      sets variable 0 to false. */
  lemma StepsAgreeWithAssignment(clauses: seq<Clause>)
    ensures forall k :: 0 <= k < |Steps(GreedyRun(clauses, LiteralOrder(clauses)).choices)| ==>
              var s := Steps(GreedyRun(clauses, LiteralOrder(clauses)).choices)[k];
              s.variable in GreedyRun(clauses, LiteralOrder(clauses)).setVars
              && GreedyRun(clauses, LiteralOrder(clauses)).setVars[s.variable] == s.value
  {
    RunChoicesAgree(clauses, LiteralOrder(clauses));
  }

  /** Each decision's variable is set, to the polarity of the chosen literal. */
  ghost predicate ChoicesAgree(r: Run)
  {
    forall k :: 0 <= k < |r.choices| ==>
      Var(r.choices[k].chosen) in r.setVars && r.setVars[Var(r.choices[k].chosen)] == (r.choices[k].chosen > 0)
  }

  /** A visit keeps every decision's value in the assignment: a decision
      only ever sets a variable no earlier decision set. */
  lemma VisitKeepsChoicesAgree(clauses: seq<Clause>, r: Run, l: int)
    requires ChoicesAgree(r)
    ensures ChoicesAgree(Visit(clauses, r, l))
  {
    if !(l in r.setVars || -l in r.setVars) {
      var c := Decide(clauses, r.covered, l);
      var r' := Visit(clauses, r, l);
      assert Var(c.chosen) !in r.setVars;
      forall k | 0 <= k < |r'.choices|
        ensures Var(r'.choices[k].chosen) in r'.setVars && r'.setVars[Var(r'.choices[k].chosen)] == (r'.choices[k].chosen > 0)
      {
        if k < |r.choices| {
          assert r'.choices[k] == r.choices[k];
        }
      }
    }
  }

  /** Every decision of the pass agrees with the assignment it builds. */
  lemma {:induction false} RunChoicesAgree(clauses: seq<Clause>, order: seq<int>)
    ensures ChoicesAgree(GreedyRun(clauses, order))
  {
    if order != [] {
      var p := order[..|order| - 1];
      RunChoicesAgree(clauses, p);
      VisitKeepsChoicesAgree(clauses, GreedyRun(clauses, p), order[|order| - 1]);
    }
  }

  /** Every step's variable is set by the assignment, and no two steps name
      the same variable. */
  ghost predicate StepsFresh(r: Run)
  {
    && (forall k :: 0 <= k < |r.choices| ==> Var(r.choices[k].chosen) in r.setVars)
    && (forall k1, k2 :: 0 <= k1 < k2 < |r.choices| ==> Var(r.choices[k1].chosen) != Var(r.choices[k2].chosen))
  }

  /** A decision sets a fresh variable: the steps stay fresh at every visit. */
  lemma VisitKeepsStepsFresh(clauses: seq<Clause>, r: Run, l: int)
    requires StepsFresh(r)
    ensures StepsFresh(Visit(clauses, r, l))
  {
    if !(l in r.setVars || -l in r.setVars) {
      var c := Decide(clauses, r.covered, l);
      var cs := r.choices + [c];
      assert Var(c.chosen) !in r.setVars;
      forall k1, k2 | 0 <= k1 < k2 < |cs|
        ensures Var(cs[k1].chosen) != Var(cs[k2].chosen)
      {
        assert cs[k1] == r.choices[k1];
        if k2 < |r.choices| {
          assert cs[k2] == r.choices[k2];
        }
      }
    }
  }

  /** Every step of the pass names a variable it sets, each a different one. */
  lemma {:induction false} RunStepsFresh(clauses: seq<Clause>, order: seq<int>)
    ensures StepsFresh(GreedyRun(clauses, order))
  {
    if order != [] {
      var p := order[..|order| - 1];
      RunStepsFresh(clauses, p);
      VisitKeepsStepsFresh(clauses, GreedyRun(clauses, p), order[|order| - 1]);
    }
  }

  /** Every variable the assignment sets has its step. */
  lemma {:induction false} SetVariablesHaveSteps(clauses: seq<Clause>, order: seq<int>)
    ensures forall v :: v in GreedyRun(clauses, order).setVars ==>
              exists k :: 0 <= k < |GreedyRun(clauses, order).choices| && Var(GreedyRun(clauses, order).choices[k].chosen) == v
  {
    if order != [] {
      var p := order[..|order| - 1];
      var l := order[|order| - 1];
      SetVariablesHaveSteps(clauses, p);
      var r := GreedyRun(clauses, p);
      if !(l in r.setVars || -l in r.setVars) {
        var c := Decide(clauses, r.covered, l);
        var cs := r.choices + [c];
        var s := r.setVars[Var(c.chosen) := c.chosen > 0];
        forall v | v in s
          ensures exists k :: 0 <= k < |cs| && Var(cs[k].chosen) == v
        {
          if v == Var(c.chosen) {
            assert cs[|r.choices|] == c;
          } else {
            var k :| 0 <= k < |r.choices| && Var(r.choices[k].chosen) == v;
            assert cs[k] == r.choices[k];
          }
        }
      }
    }
  }
}
