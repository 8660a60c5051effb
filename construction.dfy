/** The first pass of `solve_3sat` in Latest_Research.py: every variable that
    occurs is visited once, most frequent first, and set to the polarity that
    occurs in at least as many clauses as the other, counted in the occurrence
    map as built (the map is never updated during this pass). */
module Construction {
  import opened Cnf
  import opened Ordering
  import opened Occurrence

  /** `len(map[x]) + len(map[-x])`: the number of clauses holding each sign. */
  function Total(clauses: seq<Clause>, x: int): nat
  {
    |Occurrences(clauses, x)| + |Occurrences(clauses, -x)|
  }

  function TotalKey(clauses: seq<Clause>): int -> int
  {
    x => Total(clauses, x)
  }

  function Identity(x: int): int
  {
    x
  }

  /** `sorted(list(set(abs(l) for clause in clauses for l in clause)))`. */
  function UniqueVars(clauses: seq<Clause>): seq<int>
  {
    SortAsc(Dedup(VarList(clauses)))
  }

  /** `sorted(all_unique_vars, key=total, reverse=True)`: the visit order. */
  function VisitOrder(clauses: seq<Clause>): seq<int>
  {
    SortDesc(UniqueVars(clauses), TotalKey(clauses))
  }

  /** The literal chosen for variable `v`: `v` when it occurs in at least as
      many clauses as `-v`, else `-v`. */
  function ChosenLiteral(clauses: seq<Clause>, v: int): Literal
  {
    if |Occurrences(clauses, v)| >= |Occurrences(clauses, -v)| then v else -v
  }

  /** The value the pass gives variable `v`: `chosen_literal > 0`. */
  function Polarity(clauses: seq<Clause>, v: int): bool
  {
    ChosenLiteral(clauses, v) > 0
  }

  /** The trace entry for visiting `v`. */
  function ChoiceStep(clauses: seq<Clause>, v: int): Decision
  {
    Chose(v, Polarity(clauses, v), |Occurrences(clauses, v)|, |Occurrences(clauses, -v)|)
  }

  /** The assignment the first pass builds. */
  function GreedyAssignment(clauses: seq<Clause>): Assignment
  {
    map v | v in Vars(clauses) :: Polarity(clauses, v)
  }

  /** The visit order holds every occurring variable exactly once. */
  lemma VisitOrderVariables(clauses: seq<Clause>)
    ensures Distinct(VisitOrder(clauses))
    ensures forall v :: v in VisitOrder(clauses) <==> v in Vars(clauses)
  {
    var vs := Dedup(VarList(clauses));
    SortAscStrict(vs);
    assert forall v :: v in Vars(clauses) <==> v in VarList(clauses);
  }

  /** The visit order is by non-increasing total occurrence, ties broken by
      ascending id. */
  lemma VisitOrderSorted(clauses: seq<Clause>)
    ensures forall i, j :: 0 <= i < j < |VisitOrder(clauses)| ==>
              Total(clauses, VisitOrder(clauses)[i]) > Total(clauses, VisitOrder(clauses)[j])
              || (Total(clauses, VisitOrder(clauses)[i]) == Total(clauses, VisitOrder(clauses)[j])
                  && VisitOrder(clauses)[i] < VisitOrder(clauses)[j])
  {
    var vs := Dedup(VarList(clauses));
    SortAscStrict(vs);
    var asc := UniqueVars(clauses);
    SortBreaksTies(asc, TotalKey(clauses), Identity);
  }

  /** A positive variable is set true exactly when its positive literal is at
      least as frequent; variable 0 (literal 0) is always set false. */
  lemma PolarityIsMajority(clauses: seq<Clause>, v: int)
    requires v >= 0
    ensures Polarity(clauses, v) <==> v > 0 && |Occurrences(clauses, v)| >= |Occurrences(clauses, -v)|
  {
  }

  /** The chosen literal is true under the greedy assignment, and it is the
      more frequent of the two. */
  lemma ChosenLiteralHolds(clauses: seq<Clause>, v: int)
    requires v in Vars(clauses) && v != 0
    ensures ChosenLiteral(clauses, v) in [v, -v]
    ensures Var(ChosenLiteral(clauses, v)) == v
    ensures |Occurrences(clauses, ChosenLiteral(clauses, v))| >= |Occurrences(clauses, -ChosenLiteral(clauses, v))|
    ensures GreedyAssignment(clauses)[v] == (ChosenLiteral(clauses, v) > 0)
  {
    assert v >= 0 by {
      var l :| l in Flatten(clauses) && Var(l) as int == v;
    }
  }

  /** The pass itself: the map `m` is the occurrence map just built. */
  method Construct(clauses: seq<Clause>, m: map<int, set<nat>>) returns (a: Assignment, steps: seq<Decision>)
    requires forall l :: Lookup(m, l) == Occurrences(clauses, l)
    ensures a == GreedyAssignment(clauses)
    ensures |steps| == |VisitOrder(clauses)|
    ensures forall k :: 0 <= k < |steps| ==> steps[k] == ChoiceStep(clauses, VisitOrder(clauses)[k])
    ensures forall k :: 0 <= k < |steps| ==> steps[k].variable in a && a[steps[k].variable] == steps[k].value
  {
    var order := VisitOrder(clauses);
    VisitOrderVariables(clauses);
    a, steps := AssignInOrder(clauses, m, order);
    IsGreedyAssignment(clauses, a);
    forall k | 0 <= k < |steps|
      ensures steps[k].variable in a && a[steps[k].variable] == steps[k].value
    {
      assert steps[k] == ChoiceStep(clauses, order[k]);
      assert order[k] in order;
    }
  }

  lemma IsGreedyAssignment(clauses: seq<Clause>, a: Assignment)
    requires forall v :: v in a <==> v in Vars(clauses)
    requires forall v :: v in a ==> a[v] == Polarity(clauses, v)
    ensures a == GreedyAssignment(clauses)
  {
    var g := GreedyAssignment(clauses);
    assert a.Keys == g.Keys;
  }

  /** The loop over the visit order, which holds no variable twice. */
  method AssignInOrder(clauses: seq<Clause>, m: map<int, set<nat>>, order: seq<int>) returns (a: Assignment, steps: seq<Decision>)
    requires forall l :: Lookup(m, l) == Occurrences(clauses, l)
    requires Distinct(order)
    ensures forall v :: v in a <==> v in order
    ensures forall v :: v in a ==> a[v] == Polarity(clauses, v)
    ensures |steps| == |order|
    ensures forall k :: 0 <= k < |steps| ==> steps[k] == ChoiceStep(clauses, order[k])
  {
    a, steps := map[], [];
    for i := 0 to |order|
      invariant forall v :: v in a <==> v in order[..i]
      invariant forall v :: v in a ==> a[v] == Polarity(clauses, v)
      invariant |steps| == i
      invariant forall k :: 0 <= k < i ==> steps[k] == ChoiceStep(clauses, order[k])
    {
      var v := order[i];
      assert order[..i + 1] == order[..i] + [v];
      DistinctNotBefore(order, i);
      if v in a {
        assert false;
        continue;
      }
      var pos := |Lookup(m, v)|;
      var neg := |Lookup(m, -v)|;
      var chosen := if pos >= neg then v else -v;
      a := a[v := chosen > 0];
      steps := steps + [Chose(v, chosen > 0, pos, neg)];
    }
    assert order[..|order|] == order;
  }
}
