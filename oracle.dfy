/** The satisfaction oracle of Latest_Research.py: is a clause satisfied,
    how many clauses are, and how many literals of each clause are true.
    The recursive functions are the specification; the methods are the
    accumulator loops of the source, proved against them. */
module Oracle {
  import opened Cnf

  /** The literal is true: its variable is assigned the value its sign asks
      for. An unassigned variable makes no literal true, and literal 0 is
      never true (it is neither positive nor negative). */
  predicate LiteralTrue(l: Literal, a: Assignment)
  {
    Var(l) in a && ((l > 0 && a[Var(l)]) || (l < 0 && !a[Var(l)]))
  }

  /** A clause is satisfied when one of its literals is true; the empty clause
      and a clause whose variables are all unassigned are not. */
  predicate Satisfied(c: Clause, a: Assignment)
  {
    exists j :: 0 <= j < |c| && LiteralTrue(c[j], a)
  }

  /** Number of satisfied clauses, counted from the front as the loop does. */
  function CountSatisfied(clauses: seq<Clause>, a: Assignment): (n: nat)
    ensures n <= |clauses|
  {
    if clauses == [] then 0
    else CountSatisfied(clauses[..|clauses| - 1], a)
         + (if Satisfied(clauses[|clauses| - 1], a) then 1 else 0)
  }

  /** The indices of the satisfied clauses. */
  ghost function SatisfiedIndices(clauses: seq<Clause>, a: Assignment): set<nat>
  {
    set i: nat | i < |clauses| && Satisfied(clauses[i], a)
  }

  /** Number of true literals in a clause (duplicates counted each time). */
  function TrueLiterals(c: Clause, a: Assignment): (n: nat)
    ensures n <= |c|
    ensures n > 0 <==> Satisfied(c, a)
  {
    if c == [] then 0
    else
      var init := c[..|c| - 1];
      assert forall j :: 0 <= j < |init| ==> init[j] == c[j];
      TrueLiterals(init, a) + (if LiteralTrue(c[|c| - 1], a) then 1 else 0)
  }

  /** Counter lookup: a missing key reads as 0. */
  function Tally(counts: map<nat, nat>, i: nat): nat
  {
    if i in counts then counts[i] else 0
  }

  /** `is_clause_satisfied`: scan the literals, return at the first true one. */
  method IsClauseSatisfied(c: Clause, a: Assignment) returns (b: bool)
    ensures b == Satisfied(c, a)
  {
    for j := 0 to |c|
      invariant forall k :: 0 <= k < j ==> !LiteralTrue(c[k], a)
    {
      var v := Var(c[j]);
      if v in a {
        if (c[j] > 0 && a[v]) || (c[j] < 0 && !a[v]) {
          return true;
        }
      }
    }
    return false;
  }

  /** `count_satisfied_clauses`: one pass over the clauses with a counter. */
  method CountSatisfiedClauses(clauses: seq<Clause>, a: Assignment) returns (count: nat)
    ensures count == CountSatisfied(clauses, a)
    ensures count == |SatisfiedIndices(clauses, a)|
  {
    count := 0;
    for i := 0 to |clauses|
      invariant count == CountSatisfied(clauses[..i], a)
    {
      var sat := IsClauseSatisfied(clauses[i], a);
      assert clauses[..i + 1][..i] == clauses[..i];
      if sat {
        count := count + 1;
      }
    }
    assert clauses[..|clauses|] == clauses;
    CountIsCardinality(clauses, a);
  }

  /** `get_literal_satisfaction_counts`: a Counter from clause index to its
      number of true literals; only clauses with a true literal get a key. */
  method LiteralSatisfactionCounts(clauses: seq<Clause>, a: Assignment) returns (counts: map<nat, nat>)
    ensures forall i :: 0 <= i < |clauses| ==> Tally(counts, i) == TrueLiterals(clauses[i], a)
    ensures forall i: nat :: i in counts <==> i < |clauses| && Satisfied(clauses[i], a)
  {
    counts := map[];
    for i := 0 to |clauses|
      invariant forall k :: k in counts ==> k < i && counts[k] > 0
      invariant forall k :: 0 <= k < i ==> Tally(counts, k) == TrueLiterals(clauses[k], a)
    {
      var c := clauses[i];
      for j := 0 to |c|
        invariant forall k :: k in counts ==> k <= i && counts[k] > 0
        invariant forall k :: 0 <= k < i ==> Tally(counts, k) == TrueLiterals(clauses[k], a)
        invariant Tally(counts, i) == TrueLiterals(c[..j], a)
      {
        assert c[..j + 1][..j] == c[..j];
        var v := Var(c[j]);
        if v in a {
          if (c[j] > 0 && a[v]) || (c[j] < 0 && !a[v]) {
            counts := counts[i := Tally(counts, i) + 1];
          }
        }
      }
      assert c[..|c|] == c;
    }
  }

  /** The recursive count is the size of the set of satisfied indices. */
  lemma {:induction false} CountIsCardinality(clauses: seq<Clause>, a: Assignment)
    ensures CountSatisfied(clauses, a) == |SatisfiedIndices(clauses, a)|
  {
    if clauses != [] {
      var n := |clauses| - 1;
      var init := clauses[..n];
      CountIsCardinality(init, a);
      var s := SatisfiedIndices(init, a);
      if Satisfied(clauses[n], a) {
        assert SatisfiedIndices(clauses, a) == s + {n};
      } else {
        assert SatisfiedIndices(clauses, a) == s;
      }
    }
  }

  /** Every clause is satisfied exactly when the count reaches the number of
      clauses. */
  lemma {:induction false} AllSatisfiedIff(clauses: seq<Clause>, a: Assignment)
    ensures CountSatisfied(clauses, a) == |clauses|
            <==> forall i :: 0 <= i < |clauses| ==> Satisfied(clauses[i], a)
  {
    if clauses != [] {
      var n := |clauses| - 1;
      AllSatisfiedIff(clauses[..n], a);
      assert forall i :: 0 <= i < n ==> clauses[..n][i] == clauses[i];
    }
  }
}
