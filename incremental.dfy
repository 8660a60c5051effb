/** The greedy pass of `solve_3sat` in Research.py and Research4.py. Unlike
    the later version it visits literals rather than variables, and sizes the
    two polarities by the clauses that are still unsatisfied: every decision
    withdraws the clauses it satisfies from the occurrence map. */
module Incremental {
  import opened Cnf
  import opened Oracle
  import opened Ordering
  import opened Occurrence
  import opened ClauseIndex

  /** One decision of the loop: the visited literal, the literal chosen (it
      or its negation), and the remaining set sizes `pos_size` and
      `neg_size` of the visited literal and of its negation. */
  datatype Choice = Choice(literal: int, chosen: int, pos: nat, neg: nat)

  /** The loop's state: `set_variables`, the clauses counted so far, and the
      decisions in order. */
  datatype Run = Run(setVars: map<int, bool>, covered: set<nat>, choices: seq<Choice>)

  /** `len(variable_map[l])` while the map is as built. */
  function LiteralKey(clauses: seq<Clause>): int -> int
  {
    l => |Occurrences(clauses, l)|
  }

  /** Position of a literal in the key order of the occurrence map. */
  function FirstSeenRank(clauses: seq<Clause>): int -> int
  {
    l => IndexOf(Dedup(Flatten(clauses)), l)
  }

  /** `sorted(variable_map.items(), key=lambda x: len(x[1]), reverse=True)`:
      the literals, most frequent first. */
  function LiteralOrder(clauses: seq<Clause>): seq<int>
  {
    SortDesc(Dedup(Flatten(clauses)), LiteralKey(clauses))
  }

  /** The decision at literal `l` once the clauses in `covered` are counted. */
  function Decide(clauses: seq<Clause>, covered: set<nat>, l: int): Choice
  {
    var pos := |Occurrences(clauses, l) - covered|;
    var neg := |Occurrences(clauses, -l) - covered|;
    Choice(l, if pos >= neg then l else -l, pos, neg)
  }

  /** One iteration of the loop at literal `l`: skip it when its variable
      is set, otherwise decide it and count the clauses the choice satisfies. */
  function Visit(clauses: seq<Clause>, r: Run, l: int): Run
  {
    if l in r.setVars || -l in r.setVars then r
    else
      var c := Decide(clauses, r.covered, l);
      Run(r.setVars[Var(c.chosen) := c.chosen > 0], r.covered + Occurrences(clauses, c.chosen), r.choices + [c])
  }

  /** The loop over `order`, as a function of its prefix. */
  function GreedyRun(clauses: seq<Clause>, order: seq<int>): Run
  {
    if order == [] then Run(map[], {}, [])
    else Visit(clauses, GreedyRun(clauses, order[..|order| - 1]), order[|order| - 1])
  }

  /** The variables of the literals of `order`. */
  function VarsOf(order: seq<int>): set<int>
  {
    set l | l in order :: Var(l) as int
  }

  /** Literal `m` was chosen by one of the decisions. */
  predicate Chosen(choices: seq<Choice>, m: int)
  {
    exists k :: 0 <= k < |choices| && choices[k].chosen == m
  }

  /** The pass as the source runs it: build the map, sort, then decide each
      literal whose variable is not yet set. */
  method Greedy(clauses: seq<Clause>) returns (setVars: map<int, bool>, index: ClauseIndex, choices: seq<Choice>)
    ensures index.Valid() && index.clauses == clauses
    ensures setVars == GreedyRun(clauses, LiteralOrder(clauses)).setVars
    ensures choices == GreedyRun(clauses, LiteralOrder(clauses)).choices
    ensures forall j :: j in index.satisfied <==> j in GreedyRun(clauses, LiteralOrder(clauses)).covered
  {
    var m, firstSeen := BuildOccurrences(clauses);
    var order := SortDesc(firstSeen, LiteralKey(clauses));
    index := new ClauseIndex(clauses, m);
    setVars, choices := VisitAll(index, order);
  }

  /** The loop `for var, _ in sorted_variables`, from the freshly built map. */
  method VisitAll(index: ClauseIndex, order: seq<int>) returns (setVars: map<int, bool>, choices: seq<Choice>)
    requires index.Valid() && index.satisfied == map[]
    modifies index
    ensures index.Valid()
    ensures setVars == GreedyRun(index.clauses, order).setVars
    ensures choices == GreedyRun(index.clauses, order).choices
    ensures forall j :: j in index.satisfied <==> j in GreedyRun(index.clauses, order).covered
  {
    setVars, choices := map[], [];
    ghost var r := Run(map[], {}, []);
    for i := 0 to |order|
      invariant index.Valid()
      invariant r == GreedyRun(index.clauses, order[..i])
      invariant setVars == r.setVars && choices == r.choices
      invariant forall j :: j in index.satisfied <==> j in r.covered
    {
      assert order[..i + 1][..i] == order[..i];
      setVars, choices := VisitLiteral(index, setVars, choices, order[i], r);
      r := Visit(index.clauses, r, order[i]);
    }
    assert order[..|order|] == order;
  }

  /** The loop body at literal `l`, from the state `r` of the loop so far. */
  method VisitLiteral(index: ClauseIndex, setVars: map<int, bool>, choices: seq<Choice>, l: int, ghost r: Run)
    returns (setVars': map<int, bool>, choices': seq<Choice>)
    requires index.Valid()
    requires setVars == r.setVars && choices == r.choices
    requires forall j :: j in index.satisfied <==> j in r.covered
    modifies index
    ensures index.Valid()
    ensures setVars' == Visit(index.clauses, r, l).setVars && choices' == Visit(index.clauses, r, l).choices
    ensures forall j :: j in index.satisfied <==> j in Visit(index.clauses, r, l).covered
  {
    if l in setVars || -l in setVars {
      return setVars, choices;
    }
    var c := DecideAt(index, l, r.covered);
    ghost var next := Run(r.setVars[Var(c.chosen) := c.chosen > 0], r.covered + Occurrences(index.clauses, c.chosen), r.choices + [c]);
    assert Visit(index.clauses, r, l) == next;
    setVars' := setVars[Var(c.chosen) := c.chosen > 0];
    choices' := choices + [c];
    index.SatisfyClauses(c.chosen);
    assert forall j :: j in index.satisfied <==> j in next.covered;
  }

  /** `pos_size`, `neg_size` and `chosen_var` at literal `l`, read from the map. */
  method DecideAt(index: ClauseIndex, l: int, ghost covered: set<nat>) returns (c: Choice)
    requires index.Valid()
    requires forall j :: j in index.satisfied <==> j in covered
    ensures c == Decide(index.clauses, covered, l)
  {
    SameKeys(index.satisfied, covered);
    var pos := index.Remaining(l);
    var neg := index.Remaining(-l);
    ghost var d := Decide(index.clauses, covered, l);
    assert d.pos == pos && d.neg == neg;
    var chosen := if pos >= neg then l else -l;
    c := Choice(l, chosen, pos, neg);
  }

  /** Appending a decision adds its chosen literal to the chosen ones. */
  lemma ChosenAppend(choices: seq<Choice>, c: Choice)
    ensures forall m :: Chosen(choices + [c], m) <==> Chosen(choices, m) || m == c.chosen
  {
    var cs := choices + [c];
    forall m
      ensures Chosen(cs, m) <==> Chosen(choices, m) || m == c.chosen
    {
      if Chosen(cs, m) {
        var k :| 0 <= k < |cs| && cs[k].chosen == m;
        if k < |choices| {
          assert choices[k] == cs[k];
        }
      }
      if Chosen(choices, m) {
        var k :| 0 <= k < |choices| && choices[k].chosen == m;
        assert cs[k] == choices[k];
      }
      assert cs[|choices|] == c;
    }
  }

  lemma SameKeys(m: map<nat, nat>, s: set<nat>)
    requires forall j :: j in m <==> j in s
    ensures m.Keys == s
  {
  }

  /** Every variable of the visited literals is set, and nothing else. */
  lemma {:induction false} RunSetsEveryVariable(clauses: seq<Clause>, order: seq<int>)
    ensures forall v :: v in GreedyRun(clauses, order).setVars <==> v in VarsOf(order)
  {
    if order != [] {
      var p := order[..|order| - 1];
      var l := order[|order| - 1];
      RunSetsEveryVariable(clauses, p);
      assert forall x :: x in order <==> x in p || x == l;
      forall v
        ensures v in GreedyRun(clauses, order).setVars <==> v in VarsOf(order)
      {
        assert v in VarsOf(order) <==> v in VarsOf(p) || v == Var(l);
      }
    }
  }

  /** With literal 0 never visited, the literals the run makes true are
      exactly the chosen ones, and each chosen literal sets a fresh variable. */
  lemma {:induction false} RunMakesChosenTrue(clauses: seq<Clause>, order: seq<int>)
    requires 0 !in order
    ensures forall m :: LiteralTrue(m, GreedyRun(clauses, order).setVars) <==> Chosen(GreedyRun(clauses, order).choices, m)
  {
    if order != [] {
      var p := order[..|order| - 1];
      var l := order[|order| - 1];
      assert l in order;
      RunMakesChosenTrue(clauses, p);
      RunSetsEveryVariable(clauses, p);
      var r := GreedyRun(clauses, p);
      if !(l in r.setVars || -l in r.setVars) {
        var c := Decide(clauses, r.covered, l);
        var s := r.setVars[Var(c.chosen) := c.chosen > 0];
        var cs := r.choices + [c];
        assert Var(c.chosen) !in r.setVars;
        ChosenAppend(r.choices, c);
        forall m
          ensures LiteralTrue(m, s) <==> Chosen(cs, m)
        {
          if Var(m) != Var(c.chosen) {
            assert LiteralTrue(m, s) <==> LiteralTrue(m, r.setVars);
          }
        }
      }
    }
  }

  /** The counted clauses are those holding a chosen literal. */
  lemma {:induction false} RunCoversChosen(clauses: seq<Clause>, order: seq<int>)
    ensures forall j :: j in GreedyRun(clauses, order).covered <==>
              0 <= j < |clauses| && exists m :: m in clauses[j] && Chosen(GreedyRun(clauses, order).choices, m)
  {
    if order != [] {
      var p := order[..|order| - 1];
      RunCoversChosen(clauses, p);
      VisitCoversChosen(clauses, GreedyRun(clauses, p), order[|order| - 1]);
    }
  }

  /** The counted clauses are those holding a chosen literal. */
  ghost predicate CoversChosen(clauses: seq<Clause>, r: Run)
  {
    forall j :: j in r.covered <==> 0 <= j < |clauses| && exists m :: m in clauses[j] && Chosen(r.choices, m)
  }

  /** A visit keeps the counted clauses those holding a chosen literal. */
  lemma VisitCoversChosen(clauses: seq<Clause>, r: Run, l: int)
    requires CoversChosen(clauses, r)
    ensures CoversChosen(clauses, Visit(clauses, r, l))
  {
    if !(l in r.setVars || -l in r.setVars) {
      var c := Decide(clauses, r.covered, l);
      var r' := Visit(clauses, r, l);
      ChosenAppend(r.choices, c);
      forall j
        ensures j in r'.covered <==> 0 <= j < |clauses| && exists m :: m in clauses[j] && Chosen(r'.choices, m)
      {
        assert j in Occurrences(clauses, c.chosen) <==> 0 <= j < |clauses| && c.chosen in clauses[j];
      }
    }
  }

  /** With literal 0 never visited, a clause is counted exactly when the
      assignment built satisfies it. */
  lemma CoveredIsSatisfied(clauses: seq<Clause>, order: seq<int>)
    requires 0 !in order
    ensures forall j :: j in GreedyRun(clauses, order).covered <==> 0 <= j < |clauses| && Satisfied(clauses[j], GreedyRun(clauses, order).setVars)
  {
    var r := GreedyRun(clauses, order);
    RunMakesChosenTrue(clauses, order);
    RunCoversChosen(clauses, order);
    forall j | 0 <= j < |clauses|
      ensures j in r.covered <==> Satisfied(clauses[j], r.setVars)
    {
      if Satisfied(clauses[j], r.setVars) {
        var k :| 0 <= k < |clauses[j]| && LiteralTrue(clauses[j][k], r.setVars);
        assert clauses[j][k] in clauses[j];
      }
    }
  }

  /** The visit order holds each occurring literal once, sorted by the number
      of clauses holding it, equal counts in order of first appearance. */
  lemma LiteralOrderIsSorted(clauses: seq<Clause>)
    ensures Distinct(LiteralOrder(clauses))
    ensures forall l :: l in LiteralOrder(clauses) <==> Occurrences(clauses, l) != {}
    ensures LexSorted(LiteralOrder(clauses), LiteralKey(clauses), FirstSeenRank(clauses))
    ensures LexSorted(LiteralOrder(clauses), LiteralKey(clauses), FirstAppearance(clauses))
  {
    var xs := Dedup(Flatten(clauses));
    FirstSeenIsLiterals(clauses);
    forall i, j | 0 <= i < j < |xs|
      ensures FirstSeenRank(clauses)(xs[i]) < FirstSeenRank(clauses)(xs[j])
    {
      IndexOfDistinct(xs, i);
      IndexOfDistinct(xs, j);
    }
    SortBreaksTies(xs, LiteralKey(clauses), FirstSeenRank(clauses));
    RankFollowsFirstAppearance(clauses, LiteralOrder(clauses));
  }

  /** Position of a literal's first appearance in the clauses, read in order. */
  function FirstAppearance(clauses: seq<Clause>): int -> int
  {
    l => IndexOf(Flatten(clauses), l)
  }

  /** The key order of the occurrence map follows first appearance in the
      clauses, so a sort whose ties follow the key order breaks them by first
      appearance. */
  lemma RankFollowsFirstAppearance(clauses: seq<Clause>, s: seq<int>)
    requires forall k :: 0 <= k < |s| ==> s[k] in Dedup(Flatten(clauses))
    requires LexSorted(s, LiteralKey(clauses), FirstSeenRank(clauses))
    ensures LexSorted(s, LiteralKey(clauses), FirstAppearance(clauses))
  {
    var xs := Dedup(Flatten(clauses));
    DedupFirstAppearance(Flatten(clauses));
    forall i, j | 0 <= i < j < |s| && FirstSeenRank(clauses)(s[i]) < FirstSeenRank(clauses)(s[j])
      ensures FirstAppearance(clauses)(s[i]) < FirstAppearance(clauses)(s[j])
    {
      var a, b := IndexOf(xs, s[i]), IndexOf(xs, s[j]);
      assert xs[a] == s[i] && xs[b] == s[j];
    }
  }

  /** The variables the pass sets are exactly those of the formula. */
  lemma SetsEveryVariable(clauses: seq<Clause>)
    ensures forall v :: v in GreedyRun(clauses, LiteralOrder(clauses)).setVars <==> v in Vars(clauses)
  {
    RunSetsEveryVariable(clauses, LiteralOrder(clauses));
    assert forall l :: l in LiteralOrder(clauses) <==> l in Flatten(clauses);
  }

  /** On a formula without literal 0, the counted clauses are exactly the
      clauses the assignment satisfies. */
  lemma CountedAreSatisfied(clauses: seq<Clause>)
    requires NoZeroLiteral(clauses)
    ensures GreedyRun(clauses, LiteralOrder(clauses)).covered == SatisfiedIndices(clauses, GreedyRun(clauses, LiteralOrder(clauses)).setVars)
    ensures |GreedyRun(clauses, LiteralOrder(clauses)).covered| == CountSatisfied(clauses, GreedyRun(clauses, LiteralOrder(clauses)).setVars)
  {
    var order := LiteralOrder(clauses);
    NoZeroInFlatten(clauses);
    assert forall l :: l in order ==> l in Flatten(clauses);
    CoveredIsSatisfied(clauses, order);
    CountIsCardinality(clauses, GreedyRun(clauses, order).setVars);
  }

  lemma NoZeroInFlatten(clauses: seq<Clause>)
    requires NoZeroLiteral(clauses)
    ensures 0 !in Flatten(clauses)
  {
    forall l | l in Flatten(clauses)
      ensures l != 0
    {
      var i :| 0 <= i < |clauses| && l in clauses[i];
      var k :| 0 <= k < |clauses[i]| && clauses[i][k] == l;
    }
  }
}
