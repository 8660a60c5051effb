/** The second pass of `solve_3sat` in Latest_Research.py: a GSAT-like local
    search. Each round picks an unsatisfied clause, evaluates flipping the
    variable of each of its literals towards that literal, picks the flip with
    the largest net gain (ties: the smallest "multiset cost", then the earliest
    literal) and applies it when it gains, or when it gains nothing but
    satisfies the picked clause. The random pick is a parameter: round `k`
    takes position `draws(k) % n` among the `n` unsatisfied clause indices. */
module Refiner {
  import opened Cnf
  import opened Oracle
  import opened Occurrence

  /** `literal_that_was_true_before_flip`: the literal of `v` the current
      value makes true, or None when `v` is unassigned. */
  function PriorLiteral(a: Assignment, v: int): Option<Literal>
  {
    if v in a then Some(if a[v] then v else -v) else None
  }

  /** A clause that the change from `a` to `t` breaks. */
  predicate Breaks(c: Clause, a: Assignment, t: Assignment)
  {
    Satisfied(c, a) && !Satisfied(c, t)
  }

  /** A clause that the change from `a` to `t` repairs. */
  predicate Makes(c: Clause, a: Assignment, t: Assignment)
  {
    !Satisfied(c, a) && Satisfied(c, t)
  }

  function Broken(clauses: seq<Clause>, a: Assignment, t: Assignment): nat
  {
    if clauses == [] then 0
    else Broken(clauses[..|clauses| - 1], a, t) + (if Breaks(clauses[|clauses| - 1], a, t) then 1 else 0)
  }

  function Made(clauses: seq<Clause>, a: Assignment, t: Assignment): nat
  {
    if clauses == [] then 0
    else Made(clauses[..|clauses| - 1], a, t) + (if Makes(clauses[|clauses| - 1], a, t) then 1 else 0)
  }

  /** One clause's share of the multiset cost: broken by the flip, holding the
      literal that was true before it, and having that as its only true literal. */
  predicate CostlyBreak(c: Clause, a: Assignment, t: Assignment, prior: Option<Literal>, trueCount: nat)
  {
    Breaks(c, a, t) && prior.Some? && prior.value in c && trueCount == 1
  }

  /** `current_flip_multiset_cost`. */
  function MultisetCost(clauses: seq<Clause>, a: Assignment, t: Assignment, prior: Option<Literal>): nat
  {
    if clauses == [] then 0
    else
      var c := clauses[|clauses| - 1];
      MultisetCost(clauses[..|clauses| - 1], a, t, prior)
      + (if CostlyBreak(c, a, t, prior, TrueLiterals(c, a)) then 1 else 0)
  }

  /** The evaluation of flipping towards one literal of the picked clause. */
  datatype Candidate = Candidate(variable: int, value: bool, gain: int, cost: nat)

  /** What the source computes for `literal_in_clause`. */
  function Evaluate(clauses: seq<Clause>, a: Assignment, l: Literal): Candidate
  {
    var t := a[Var(l) := l > 0];
    Candidate(Var(l), l > 0, CountSatisfied(clauses, t) - CountSatisfied(clauses, a),
              MultisetCost(clauses, a, t, PriorLiteral(a, Var(l))))
  }

  /** The candidates of a clause, one per literal, in order. */
  function Candidates(clauses: seq<Clause>, a: Assignment, target: Clause): (cs: seq<Candidate>)
    ensures |cs| == |target|
  {
    seq(|target|, j requires 0 <= j < |target| => Evaluate(clauses, a, target[j]))
  }

  /** `j` is the candidate the selection keeps: largest gain, then smallest
      cost, then earliest. */
  predicate LexBest(cs: seq<Candidate>, j: int)
  {
    && 0 <= j < |cs|
    && (forall k :: 0 <= k < |cs| ==> cs[k].gain <= cs[j].gain)
    && (forall k :: 0 <= k < |cs| && cs[k].gain == cs[j].gain ==> cs[j].cost <= cs[k].cost)
    && (forall k :: 0 <= k < j && cs[k].gain == cs[j].gain ==> cs[j].cost < cs[k].cost)
  }

  /** The candidate the selection loop keeps: the running best of the
      prefix, replaced by the last candidate when it gains more, or as much
      at a strictly smaller cost. */
  function BestOf(cs: seq<Candidate>): (j: nat)
    requires cs != []
    ensures LexBest(cs, j)
  {
    if |cs| == 1 then 0
    else
      var n := |cs| - 1;
      var b := BestOf(cs[..n]);
      LexBestExtend(cs, n, b);
      assert cs[..n + 1] == cs;
      if cs[n].gain > cs[b].gain || (cs[n].gain == cs[b].gain && cs[n].cost < cs[b].cost) then n else b
  }

  /** The acceptance rule of the flip. */
  predicate Accepts(cand: Candidate, target: Clause, a: Assignment)
  {
    cand.gain > 0
    || (cand.gain == 0 && !Satisfied(target, a) && Satisfied(target, a[cand.variable := cand.value]))
  }

  /** `max_flips`. */
  function MaxFlips(numVars: int): nat
  {
    if numVars > 0 then numVars * 5 else 50
  }

  /** The sum of the net gains of the accepted flips of a trace. */
  function GainTotal(steps: seq<Decision>): int
  {
    if steps == [] then 0
    else GainTotal(steps[..|steps| - 1]) + (if steps[|steps| - 1].Flipped? then steps[|steps| - 1].gain else 0)
  }

  /** `unsatisfied_clause_indices`, in increasing order. */
  function UnsatisfiedIndices(clauses: seq<Clause>, a: Assignment): (r: seq<nat>)
    ensures forall i :: i in r <==> 0 <= i < |clauses| && !Satisfied(clauses[i], a)
    ensures forall k :: 0 <= k < |r| ==> r[k] < |clauses|
  {
    if clauses == [] then []
    else
      var n := |clauses| - 1;
      assert forall i :: 0 <= i < n ==> clauses[..n][i] == clauses[i];
      UnsatisfiedIndices(clauses[..n], a) + (if Satisfied(clauses[n], a) then [] else [n])
  }

  /** The net gain of a change is the clauses it repairs minus those it breaks. */
  lemma {:induction false} GainIsMadeMinusBroken(clauses: seq<Clause>, a: Assignment, t: Assignment)
    ensures CountSatisfied(clauses, t) - CountSatisfied(clauses, a) == Made(clauses, a, t) - Broken(clauses, a, t)
  {
    if clauses != [] {
      GainIsMadeMinusBroken(clauses[..|clauses| - 1], a, t);
    }
  }

  /** The multiset cost counts only broken clauses, so it never exceeds their number. */
  lemma {:induction false} CostAtMostBroken(clauses: seq<Clause>, a: Assignment, t: Assignment, prior: Option<Literal>)
    ensures MultisetCost(clauses, a, t, prior) <= Broken(clauses, a, t)
  {
    if clauses != [] {
      CostAtMostBroken(clauses[..|clauses| - 1], a, t, prior);
    }
  }

  /** At most one candidate is the selected one. */
  lemma LexBestUnique(cs: seq<Candidate>, j1: int, j2: int)
    requires LexBest(cs, j1) && LexBest(cs, j2)
    ensures j1 == j2
  {
    var c1, c2 := cs[j1], cs[j2];
    assert c1.gain == c2.gain;
    assert c1.cost == c2.cost;
    assert j1 < j2 ==> c2.cost < c1.cost;
    assert j2 < j1 ==> c1.cost < c2.cost;
  }

  /** The selection step: the best of a longer prefix is the new candidate
      when it gains more, or as much at a strictly smaller cost. */
  lemma LexBestExtend(cs: seq<Candidate>, j: nat, b: nat)
    requires j < |cs|
    requires j == 0 || LexBest(cs[..j], b)
    ensures var take := j == 0 || cs[j].gain > cs[b].gain || (cs[j].gain == cs[b].gain && cs[j].cost < cs[b].cost);
            LexBest(cs[..j + 1], if take then j else b)
  {
    var p := cs[..j + 1];
    assert forall k :: 0 <= k < j ==> p[k] == cs[..j][k];
  }

  /** Flipping towards a non-zero literal makes that literal true and changes
      no other variable. */
  lemma FlipMakesLiteralTrue(a: Assignment, l: Literal)
    requires l != 0
    ensures LiteralTrue(l, a[Var(l) := l > 0])
    ensures forall v :: v != Var(l) && v in a ==> v in a[Var(l) := l > 0] && a[Var(l) := l > 0][v] == a[v]
  {
  }

  /** The evaluation loop for one candidate: count after the hypothetical
      flip, and the multiset cost from the per-clause true-literal counts. */
  method EvaluateCandidate(clauses: seq<Clause>, a: Assignment, count: nat, counts: map<nat, nat>, l: Literal)
    returns (cand: Candidate)
    requires count == CountSatisfied(clauses, a)
    requires forall i :: 0 <= i < |clauses| ==> Tally(counts, i) == TrueLiterals(clauses[i], a)
    ensures cand == Evaluate(clauses, a, l)
  {
    var v: int := Var(l);
    var value := l > 0;
    var t := a[v := value];
    var newCount := CountSatisfiedClauses(clauses, t);
    var gain := newCount - count;
    var prior: Option<Literal> := None;
    if v in a {
      prior := Some(if a[v] then v else -v);
    }
    assert prior == PriorLiteral(a, Var(l));
    var cost := CostOfFlip(clauses, a, t, prior, counts);
    cand := Candidate(v, value, gain, cost);
  }

  /** The cost loop: one for each clause the flip breaks that held the prior
      literal as its only true literal. */
  method CostOfFlip(clauses: seq<Clause>, a: Assignment, t: Assignment, prior: Option<Literal>, counts: map<nat, nat>)
    returns (cost: nat)
    requires forall i :: 0 <= i < |clauses| ==> Tally(counts, i) == TrueLiterals(clauses[i], a)
    ensures cost == MultisetCost(clauses, a, t, prior)
  {
    cost := 0;
    for i := 0 to |clauses|
      invariant cost == MultisetCost(clauses[..i], a, t, prior)
    {
      assert clauses[..i + 1][..i] == clauses[..i];
      var before := IsClauseSatisfied(clauses[i], a);
      var after := IsClauseSatisfied(clauses[i], t);
      if before && !after {
        if prior.Some? && prior.value in clauses[i] && Tally(counts, i) == 1 {
          cost := cost + 1;
        }
      }
    }
    assert clauses[..|clauses|] == clauses;
  }

  /** The candidate loop: evaluate the literals of the target in order and
      keep the best so far. */
  method SelectFlip(clauses: seq<Clause>, a: Assignment, count: nat, target: Clause)
    returns (best: Option<Candidate>, ghost bestAt: nat)
    requires count == CountSatisfied(clauses, a)
    ensures best.None? <==> target == []
    ensures best.Some? ==> LexBest(Candidates(clauses, a, target), bestAt)
                           && best.value == Candidates(clauses, a, target)[bestAt]
  {
    ghost var cs := Candidates(clauses, a, target);
    assert forall j :: 0 <= j < |target| ==> cs[j] == Evaluate(clauses, a, target[j]);
    var counts := LiteralSatisfactionCounts(clauses, a);
    best, bestAt := None, 0;
    for j := 0 to |target|
      invariant best.None? <==> j == 0
      invariant best.Some? ==> LexBest(cs[..j], bestAt) && best.value == cs[bestAt]
    {
      var cand := EvaluateCandidate(clauses, a, count, counts, target[j]);
      assert cand == cs[j];
      var take := best.None? || cand.gain > best.value.gain
                  || (cand.gain == best.value.gain && cand.cost < best.value.cost);
      assert take == (j == 0 || cs[j].gain > cs[bestAt].gain || (cs[j].gain == cs[bestAt].gain && cs[j].cost < cs[bestAt].cost));
      LexBestExtend(cs, j, bestAt);
      ghost var nextAt := if take then j else bestAt;
      assert LexBest(cs[..j + 1], nextAt);
      if take {
        best := Some(cand);
        bestAt := j;
      }
    }
    assert cs[..|target|] == cs;
  }

  /** One round, once the target clause is picked: select the best flip and
      apply it if accepted. */
  method RefineStep(clauses: seq<Clause>, a: Assignment, count: nat, targetIdx: nat)
    returns (next: Assignment, nextCount: nat, step: Option<Decision>)
    requires targetIdx < |clauses|
    requires count == CountSatisfied(clauses, a)
    ensures nextCount == CountSatisfied(clauses, next)
    ensures nextCount >= count
    ensures step.None? ==> next == a && nextCount == count
    ensures SelectionRule(clauses, a, count, targetIdx, next, nextCount, step)
    ensures step == RoundStep(clauses, a, targetIdx) && next == Apply(a, step)
    ensures step.Some? ==>
              && step.value.Flipped? && step.value.target == targetIdx
              && nextCount == count + step.value.gain
              && next == a[step.value.variable := step.value.value]
              && step.value.variable in Vars(clauses)
  {
    var target := clauses[targetIdx];
    ghost var cs := Candidates(clauses, a, target);
    var best, bestAt := SelectFlip(clauses, a, count, target);
    next, nextCount, step := a, count, None;
    if best.Some? {
      LexBestUnique(cs, bestAt, BestOf(cs));
      var b := best.value;
      var sat := IsClauseSatisfied(target, a);
      var satAfter := IsClauseSatisfied(target, a[b.variable := b.value]);
      if b.gain > 0 || (b.gain == 0 && !sat && satAfter) {
        next := a[b.variable := b.value];
        nextCount := CountSatisfiedClauses(clauses, next);
        step := Some(Flipped(b.variable, b.value, targetIdx, b.gain, b.cost));
        assert StepTaken(clauses, a, count, targetIdx, bestAt, next, nextCount, step.value);
        assert target[bestAt] in Flatten(clauses);
      } else {
        forall j | LexBest(cs, j)
          ensures !Accepts(cs[j], target, a)
        {
          LexBestUnique(cs, j, bestAt);
        }
      }
    }
  }

  /** The outcome of a round: no flip when the selected candidate is not
      accepted (or the clause is empty), else the flip of the selected one. */
  ghost predicate SelectionRule(clauses: seq<Clause>, a: Assignment, count: nat, targetIdx: nat,
                          next: Assignment, nextCount: nat, step: Option<Decision>)
    requires targetIdx < |clauses|
  {
    var cs := Candidates(clauses, a, clauses[targetIdx]);
    && (step.None? ==> forall j :: 0 <= j < |cs| && LexBest(cs, j) ==> !Accepts(cs[j], clauses[targetIdx], a))
    && (step.Some? ==>
          exists j :: 0 <= j < |clauses[targetIdx]| && LexBest(cs, j)
            && StepTaken(clauses, a, count, targetIdx, j, next, nextCount, step.value))
  }

  /** The decision of a round that targets clause `targetIdx`: the flip
      towards the selected candidate when the acceptance rule takes it, and
      none when it does not or when the clause is empty. */
  function RoundStep(clauses: seq<Clause>, a: Assignment, targetIdx: nat): Option<Decision>
    requires targetIdx < |clauses|
  {
    var cs := Candidates(clauses, a, clauses[targetIdx]);
    if cs == [] then None
    else
      var b := cs[BestOf(cs)];
      if Accepts(b, clauses[targetIdx], a) then Some(Flipped(b.variable, b.value, targetIdx, b.gain, b.cost))
      else None
  }

  /** The assignment after a round's decision. */
  function Apply(a: Assignment, step: Option<Decision>): Assignment
  {
    if step.Some? && step.value.Flipped? then a[step.value.variable := step.value.value] else a
  }

  /** The round's decision is the one the selection rule describes: no flip
      exactly when the best candidate is refused, otherwise the flip of the
      best candidate, with its gain added to the count. */
  lemma RoundStepFollowsRule(clauses: seq<Clause>, a: Assignment, targetIdx: nat)
    requires targetIdx < |clauses|
    ensures var step := RoundStep(clauses, a, targetIdx);
            var next := Apply(a, step);
            SelectionRule(clauses, a, CountSatisfied(clauses, a), targetIdx, next, CountSatisfied(clauses, next), step)
  {
    var cs := Candidates(clauses, a, clauses[targetIdx]);
    var step := RoundStep(clauses, a, targetIdx);
    if cs != [] {
      var j := BestOf(cs);
      forall k | 0 <= k < |cs| && LexBest(cs, k)
        ensures k == j
      {
        LexBestUnique(cs, k, j);
      }
      if step.Some? {
        assert StepTaken(clauses, a, CountSatisfied(clauses, a), targetIdx, j,
                         Apply(a, step), CountSatisfied(clauses, Apply(a, step)), step.value);
      }
    }
  }

  /** What the local search ends with: the assignment, the accepted flips in
      order, and the number of rounds that targeted a clause. */
  datatype SearchEnd = SearchEnd(assignment: Assignment, flips: seq<Decision>, rounds: nat)

  /** The local search from round `k` on: stop once every clause holds or
      the budget is spent; otherwise target the unsatisfied clause the draw
      picks, take the round's decision, and go on. */
  function Search(clauses: seq<Clause>, a: Assignment, k: nat, maxFlips: nat, draws: nat -> nat): SearchEnd
    decreases maxFlips - k
  {
    var unsat := UnsatisfiedIndices(clauses, a);
    if maxFlips <= k || unsat == [] then SearchEnd(a, [], k)
    else
      var step := RoundStep(clauses, a, unsat[draws(k) % |unsat|]);
      var rest := Search(clauses, Apply(a, step), k + 1, maxFlips, draws);
      SearchEnd(rest.assignment, (if step.Some? then [step.value] else []) + rest.flips, rest.rounds)
  }

  /** What an applied flip towards literal `j` of the target does. */
  predicate StepTaken(clauses: seq<Clause>, a: Assignment, count: nat, targetIdx: nat, j: nat,
                      next: Assignment, nextCount: nat, step: Decision)
    requires targetIdx < |clauses| && j < |clauses[targetIdx]|
  {
    var l := clauses[targetIdx][j];
    var cand := Evaluate(clauses, a, l);
    && Accepts(cand, clauses[targetIdx], a)
    && next == a[Var(l) := l > 0]
    && nextCount == count + cand.gain
    && step == Flipped(Var(l), l > 0, targetIdx, cand.gain, cand.cost)
  }

  /** The local-search loop over `range(max_flips)`: each round targets the
      unsatisfied clause the draw picks and applies at most one flip; the loop
      stops early once every clause is satisfied. `rounds` counts the rounds
      that targeted a clause. */
  method LocalSearch(clauses: seq<Clause>, a0: Assignment, numVars: int, draws: nat -> nat)
    returns (a: Assignment, count: nat, flips: seq<Decision>, ghost rounds: nat)
    ensures Search(clauses, a0, 0, MaxFlips(numVars), draws) == SearchEnd(a, flips, rounds)
    ensures count == CountSatisfied(clauses, a)
    ensures count == CountSatisfied(clauses, a0) + GainTotal(flips)
    ensures count >= CountSatisfied(clauses, a0)
    ensures |flips| <= rounds <= MaxFlips(numVars)
    ensures rounds < MaxFlips(numVars) ==> forall i :: 0 <= i < |clauses| ==> Satisfied(clauses[i], a)
    ensures (forall i :: 0 <= i < |clauses| ==> Satisfied(clauses[i], a0)) ==> a == a0 && flips == []
    ensures forall k :: 0 <= k < |flips| ==> flips[k].Flipped? && flips[k].target < |clauses| && flips[k].gain >= 0
    ensures forall v :: v in a0 ==> v in a
    ensures forall v :: v in a ==> v in a0 || v in Vars(clauses)
  {
    a := a0;
    count := CountSatisfiedClauses(clauses, a);
    flips := [];
    var maxFlips := MaxFlips(numVars);
    var k := 0;
    var done := false;
    while k < maxFlips && !done
      invariant k <= maxFlips
      invariant Searched(clauses, a0, a, count, flips)
      invariant !done ==> Resumes(Search(clauses, a0, 0, maxFlips, draws), flips, Search(clauses, a, k, maxFlips, draws))
      invariant done ==> Search(clauses, a0, 0, maxFlips, draws) == SearchEnd(a, flips, k)
      decreases maxFlips - k, !done
    {
      done, a, count, flips := SearchLoopStep(clauses, a0, maxFlips, draws, k, a, count, flips);
      if !done {
        k := k + 1;
      }
    }
    if !done {
      SearchStops(clauses, a, k, maxFlips, draws);
    }
    rounds := k;
    SearchOutline(clauses, a0, maxFlips, draws);
  }

  /** The body of the loop at round `k`: stop when every clause holds,
      otherwise take the round's decision and record an accepted flip. */
  method SearchLoopStep(clauses: seq<Clause>, ghost a0: Assignment, ghost maxFlips: nat, draws: nat -> nat, k: nat,
                        a: Assignment, count: nat, flips: seq<Decision>)
    returns (done: bool, a': Assignment, count': nat, flips': seq<Decision>)
    requires k < maxFlips
    requires Searched(clauses, a0, a, count, flips)
    requires Resumes(Search(clauses, a0, 0, maxFlips, draws), flips, Search(clauses, a, k, maxFlips, draws))
    ensures Searched(clauses, a0, a', count', flips')
    ensures done ==> a' == a && flips' == flips && Search(clauses, a0, 0, maxFlips, draws) == SearchEnd(a, flips, k)
    ensures !done ==> Resumes(Search(clauses, a0, 0, maxFlips, draws), flips', Search(clauses, a', k + 1, maxFlips, draws))
  {
    var next, nextCount, step;
    done, next, nextCount, step := SearchRound(clauses, a, count, draws(k));
    a', count', flips' := a, count, flips;
    if done {
      SearchStops(clauses, a, k, maxFlips, draws);
    } else if step.Some? {
      ResumeRound(clauses, a0, a, k, maxFlips, draws, flips, step, next, flips + [step.value]);
      AcceptFlip(clauses, a0, a, count, flips, step.value, next, nextCount);
      a', count', flips' := next, nextCount, flips + [step.value];
    } else {
      ResumeRound(clauses, a0, a, k, maxFlips, draws, flips, step, a, flips);
    }
  }

  /** What the whole search promises: at most `max_flips` rounds and one
      flip per round, an early stop only when every clause holds, and no
      round at all when the initial assignment already satisfies every
      clause. */
  lemma SearchOutline(clauses: seq<Clause>, a0: Assignment, maxFlips: nat, draws: nat -> nat)
    ensures var e := Search(clauses, a0, 0, maxFlips, draws);
            && |e.flips| <= e.rounds <= maxFlips
            && (e.rounds < maxFlips ==> forall i :: 0 <= i < |clauses| ==> Satisfied(clauses[i], e.assignment))
            && ((forall i :: 0 <= i < |clauses| ==> Satisfied(clauses[i], a0)) ==> e.assignment == a0 && e.flips == [])
  {
    SearchBounds(clauses, a0, 0, maxFlips, draws);
    SearchEndsSatisfied(clauses, a0, 0, maxFlips, draws);
    if forall i :: 0 <= i < |clauses| ==> Satisfied(clauses[i], a0) {
      assert UnsatisfiedIndices(clauses, a0) == [];
      SearchStops(clauses, a0, 0, maxFlips, draws);
    }
  }

  /** The search from round `k` runs at most to the budget and makes at
      most one flip per round. */
  lemma {:induction false} SearchBounds(clauses: seq<Clause>, a: Assignment, k: nat, maxFlips: nat, draws: nat -> nat)
    requires k <= maxFlips
    ensures k <= Search(clauses, a, k, maxFlips, draws).rounds <= maxFlips
    ensures |Search(clauses, a, k, maxFlips, draws).flips| <= Search(clauses, a, k, maxFlips, draws).rounds - k
    decreases maxFlips - k
  {
    var unsat := UnsatisfiedIndices(clauses, a);
    if k < maxFlips && unsat != [] {
      var step := RoundStep(clauses, a, unsat[draws(k) % |unsat|]);
      SearchRoundUnfolds(clauses, a, k, maxFlips, draws, step);
      SearchBounds(clauses, Apply(a, step), k + 1, maxFlips, draws);
    } else {
      SearchStops(clauses, a, k, maxFlips, draws);
    }
  }

  /** The search stops before the budget only when every clause holds. */
  lemma {:induction false} SearchEndsSatisfied(clauses: seq<Clause>, a: Assignment, k: nat, maxFlips: nat, draws: nat -> nat)
    ensures Search(clauses, a, k, maxFlips, draws).rounds < maxFlips ==>
              forall i :: 0 <= i < |clauses| ==> Satisfied(clauses[i], Search(clauses, a, k, maxFlips, draws).assignment)
    decreases maxFlips - k
  {
    var unsat := UnsatisfiedIndices(clauses, a);
    if k < maxFlips && unsat != [] {
      var step := RoundStep(clauses, a, unsat[draws(k) % |unsat|]);
      SearchRoundUnfolds(clauses, a, k, maxFlips, draws, step);
      SearchEndsSatisfied(clauses, Apply(a, step), k + 1, maxFlips, draws);
    } else {
      SearchStops(clauses, a, k, maxFlips, draws);
    }
  }

  /** The search ends where it stands once the budget is spent or every
      clause holds. */
  lemma SearchStops(clauses: seq<Clause>, a: Assignment, k: nat, maxFlips: nat, draws: nat -> nat)
    requires maxFlips <= k || UnsatisfiedIndices(clauses, a) == []
    ensures Search(clauses, a, k, maxFlips, draws) == SearchEnd(a, [], k)
  {
  }

  /** The whole search is the flips made so far followed by the search from
      the current round on. */
  predicate Resumes(whole: SearchEnd, flips: seq<Decision>, rest: SearchEnd)
  {
    whole == SearchEnd(rest.assignment, flips + rest.flips, rest.rounds)
  }

  /** One more round of the loop keeps the whole search split at the
      current round. */
  lemma ResumeRound(clauses: seq<Clause>, a0: Assignment, a: Assignment, k: nat, maxFlips: nat,
                    draws: nat -> nat, flips: seq<Decision>, step: Option<Decision>,
                    next: Assignment, nextFlips: seq<Decision>)
    requires k < maxFlips && UnsatisfiedIndices(clauses, a) != []
    requires step == RoundStep(clauses, a, UnsatisfiedIndices(clauses, a)[draws(k) % |UnsatisfiedIndices(clauses, a)|])
    requires next == Apply(a, step) && nextFlips == flips + (if step.Some? then [step.value] else [])
    requires Resumes(Search(clauses, a0, 0, maxFlips, draws), flips, Search(clauses, a, k, maxFlips, draws))
    ensures Resumes(Search(clauses, a0, 0, maxFlips, draws), nextFlips, Search(clauses, next, k + 1, maxFlips, draws))
  {
    var s := if step.Some? then [step.value] else [];
    SearchRoundUnfolds(clauses, a, k, maxFlips, draws, step);
    ResumeCompose(Search(clauses, a0, 0, maxFlips, draws), flips, Search(clauses, a, k, maxFlips, draws),
                  s, Search(clauses, next, k + 1, maxFlips, draws));
  }

  /** The search from a round that targets a clause is that round's
      decision followed by the search from the next round. */
  lemma SearchRoundUnfolds(clauses: seq<Clause>, a: Assignment, k: nat, maxFlips: nat,
                           draws: nat -> nat, step: Option<Decision>)
    requires k < maxFlips && UnsatisfiedIndices(clauses, a) != []
    requires step == RoundStep(clauses, a, UnsatisfiedIndices(clauses, a)[draws(k) % |UnsatisfiedIndices(clauses, a)|])
    ensures var rest := Search(clauses, Apply(a, step), k + 1, maxFlips, draws);
            Search(clauses, a, k, maxFlips, draws)
            == SearchEnd(rest.assignment, (if step.Some? then [step.value] else []) + rest.flips, rest.rounds)
  {
  }

  lemma ResumeCompose(whole: SearchEnd, flips: seq<Decision>, rest: SearchEnd, s: seq<Decision>, rest2: SearchEnd)
    requires Resumes(whole, flips, rest)
    requires rest == SearchEnd(rest2.assignment, s + rest2.flips, rest2.rounds)
    ensures Resumes(whole, flips + s, rest2)
  {
    assert flips + (s + rest2.flips) == flips + s + rest2.flips;
  }

  /** What the search keeps from round to round: the running count is that
      of the current assignment and exceeds the initial one by the gains of
      the accepted flips, none of which loses, and the assignment only ever
      gains variables of the formula. */
  ghost predicate Searched(clauses: seq<Clause>, a0: Assignment, a: Assignment, count: nat, flips: seq<Decision>)
  {
    && count == CountSatisfied(clauses, a)
    && count == CountSatisfied(clauses, a0) + GainTotal(flips)
    && count >= CountSatisfied(clauses, a0)
    && (forall j :: 0 <= j < |flips| ==> flips[j].Flipped? && flips[j].target < |clauses| && flips[j].gain >= 0)
    && (forall v :: v in a0 ==> v in a)
    && (forall v :: v in a ==> v in a0 || v in Vars(clauses))
  }

  /** Accepting a non-losing flip of a variable of the formula keeps the search state. */
  lemma AcceptFlip(clauses: seq<Clause>, a0: Assignment, a: Assignment, count: nat, flips: seq<Decision>,
                   d: Decision, next: Assignment, nextCount: nat)
    requires Searched(clauses, a0, a, count, flips)
    requires d.Flipped? && d.target < |clauses| && d.gain >= 0
    requires nextCount == count + d.gain && nextCount == CountSatisfied(clauses, next)
    requires next == a[d.variable := d.value] && d.variable in Vars(clauses)
    ensures Searched(clauses, a0, next, nextCount, flips + [d])
  {
    var fs := flips + [d];
    assert fs[..|flips|] == flips;
    assert GainTotal(fs) == GainTotal(flips) + d.gain;
    forall j | 0 <= j < |fs|
      ensures fs[j].Flipped? && fs[j].target < |clauses| && fs[j].gain >= 0
    {
      if j < |flips| {
        assert fs[j] == flips[j];
      }
    }
  }

  /** One round of the loop: stop when nothing is unsatisfied, otherwise
      target the unsatisfied clause `draw` picks and try one flip there. */
  method SearchRound(clauses: seq<Clause>, a: Assignment, count: nat, draw: nat)
    returns (done: bool, next: Assignment, nextCount: nat, step: Option<Decision>)
    requires count == CountSatisfied(clauses, a)
    ensures done <==> forall i :: 0 <= i < |clauses| ==> Satisfied(clauses[i], a)
    ensures done <==> UnsatisfiedIndices(clauses, a) == []
    ensures !done ==>
              var unsat := UnsatisfiedIndices(clauses, a);
              && SelectionRule(clauses, a, count, unsat[draw % |unsat|], next, nextCount, step)
              && step == RoundStep(clauses, a, unsat[draw % |unsat|]) && next == Apply(a, step)
    ensures nextCount == CountSatisfied(clauses, next) && nextCount >= count
    ensures step.None? ==> next == a && nextCount == count
    ensures done ==> step.None?
    ensures step.Some? ==>
              && step.value.Flipped?
              && step.value.target == UnsatisfiedIndices(clauses, a)[draw % |UnsatisfiedIndices(clauses, a)|]
              && step.value.target < |clauses|
              && step.value.gain >= 0 && nextCount == count + step.value.gain
              && next == a[step.value.variable := step.value.value]
              && step.value.variable in Vars(clauses)
  {
    var unsat := UnsatisfiedIndices(clauses, a);
    if unsat == [] {
      return true, a, count, None;
    }
    assert unsat[0] in unsat;
    var targetIdx := unsat[draw % |unsat|];
    assert targetIdx in unsat;
    done := false;
    next, nextCount, step := RefineStep(clauses, a, count, targetIdx);
  }
}
