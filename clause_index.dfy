/** The mutable state of the incremental greedy in Research.py and
    Research4.py: `variable_map`, which maps each literal to the clauses
    holding it that are not yet satisfied, and the Counter
    `satisfied_clauses`, updated together by `satisfy_clauses`. */
module ClauseIndex {
  import opened Cnf
  import opened Oracle
  import opened Occurrence

  /** `sum(1 for count in counts.values() if count > 0)`. */
  function PositiveCount(counts: map<nat, nat>): nat
  {
    |set i | i in counts && counts[i] > 0|
  }

  class ClauseIndex {
    const clauses: seq<Clause>
    /** `variable_map`: literal to the unsatisfied clauses holding it. */
    var variableMap: map<int, set<nat>>
    /** `satisfied_clauses`: clause index to the number of times it was counted. */
    var satisfied: map<nat, nat>

    /** Every counted clause exists and was counted once, and the map holds,
        for each literal, exactly the uncounted clauses it occurs in. */
    ghost predicate Valid()
      reads this
    {
      && (forall i :: i in satisfied ==> i < |clauses| && satisfied[i] == 1)
      && (forall l {:trigger Lookup(variableMap, l)} :: Lookup(variableMap, l) == Occurrences(clauses, l) - satisfied.Keys)
    }

    /** The state right after the occurrence map is built: nothing counted. */
    constructor (clauses: seq<Clause>, m: map<int, set<nat>>)
      requires forall l :: Lookup(m, l) == Occurrences(clauses, l)
      ensures this.clauses == clauses && variableMap == m && satisfied == map[]
      ensures Valid()
    {
      this.clauses := clauses;
      variableMap := m;
      satisfied := map[];
    }

    /** `len(variable_map[l])`: how many uncounted clauses hold `l`. */
    function Remaining(l: Literal): (n: nat)
      reads this
      requires Valid()
      ensures n == |Occurrences(clauses, l) - satisfied.Keys|
    {
      |Lookup(variableMap, l)|
    }

    /** `len(satisfied_clauses)`, which is also the count of positive entries. */
    function CountedClauses(): (n: nat)
      reads this
      requires Valid()
      ensures n == |satisfied.Keys| && n == PositiveCount(satisfied)
      ensures n <= |clauses|
    {
      assert (set i | i in satisfied && satisfied[i] > 0) == satisfied.Keys;
      RangeSubset(satisfied.Keys, |clauses|);
      |satisfied.Keys|
    }

    /** `satisfy_clauses(lit)`: count every uncounted clause holding `lit`
        and withdraw it from the sets of all its literals. */
    method SatisfyClauses(lit: Literal)
      requires Valid()
      modifies this
      ensures Valid()
      ensures forall i :: i in satisfied <==> i in old(satisfied) || i in Occurrences(clauses, lit)
    {
      var todo := Lookup(variableMap, lit);
      ghost var done: set<nat> := {};
      ghost var snapshot := todo;
      assert forall j :: j in snapshot ==> j < |clauses| && j !in satisfied;
      assert forall j :: j in Occurrences(clauses, lit) ==> j in satisfied || j in snapshot;
      while todo != {}
        invariant Valid()
        invariant todo !! done
        invariant forall j :: j in snapshot <==> j in todo || j in done
        invariant forall i :: i in satisfied <==> i in old(satisfied) || i in done
        decreases |todo|
      {
        var i :| i in todo;
        todo, done := todo - {i}, done + {i};
        CountClause(i);
      }
    }

    /** One iteration: `satisfied_clauses[i] += 1`, and on the first count
        the withdrawal of `i` from the map. */
    method CountClause(i: nat)
      requires Valid()
      requires i < |clauses| && i !in satisfied
      modifies this
      ensures Valid()
      ensures forall j :: j in satisfied <==> j in old(satisfied) || j == i
    {
      ghost var before := variableMap;
      ghost var keys := satisfied.Keys;
      satisfied := satisfied[i := Tally(satisfied, i) + 1];
      if satisfied[i] == 1 {
        Discard(i);
      }
      WithdrawClause(clauses, before, keys, variableMap, i);
      assert satisfied.Keys == keys + {i};
    }

    /** The inner loop: `variable_map[l].discard(i)` for each literal `l` of clause `i`. */
    method Discard(i: nat)
      requires i < |clauses|
      modifies this
      ensures satisfied == old(satisfied)
      ensures forall l :: Lookup(variableMap, l) == Lookup(old(variableMap), l) - (if l in clauses[i] then {i} else {})
    {
      var c := clauses[i];
      for j := 0 to |c|
        invariant satisfied == old(satisfied)
        invariant forall l :: Lookup(variableMap, l) == Lookup(old(variableMap), l) - (if l in c[..j] then {i} else {})
      {
        var l := c[j];
        assert c[..j + 1] == c[..j] + [l];
        variableMap := variableMap[l := Lookup(variableMap, l) - {i}];
      }
      assert c[..|c|] == c;
    }
  }

  /** Withdrawing clause `i` from the map keeps it equal to the occurrence
      sets minus the counted clauses, now with `i` counted. */
  lemma WithdrawClause(clauses: seq<Clause>, before: map<int, set<nat>>, keys: set<nat>,
                       after: map<int, set<nat>>, i: nat)
    requires i < |clauses|
    requires forall l :: Lookup(before, l) == Occurrences(clauses, l) - keys
    requires forall l :: Lookup(after, l) == Lookup(before, l) - (if l in clauses[i] then {i} else {})
    ensures forall l :: Lookup(after, l) == Occurrences(clauses, l) - (keys + {i})
  {
    forall l
      ensures Lookup(after, l) == Occurrences(clauses, l) - (keys + {i})
    {
      assert i in Occurrences(clauses, l) <==> l in clauses[i];
    }
  }

  /** A set of indices below `n` has at most `n` elements. */
  lemma {:induction false} RangeSubset(s: set<nat>, n: nat)
    requires forall i :: i in s ==> i < n
    ensures |s| <= n
    ensures |s| == n ==> forall i: nat :: i < n ==> i in s
  {
    if n > 0 {
      RangeSubset(s - {n - 1}, n - 1);
      if |s| == n {
        assert n - 1 in s;
      }
    }
  }
}
