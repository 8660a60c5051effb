/** The literal-to-clause occurrence map that all three solvers build first
    (`defaultdict(set)` filled by `variable_map[literal].add(i)`), and the
    variables and literals of a clause list. */
module Occurrence {
  import opened Cnf
  import opened Ordering

  /** The indices of the clauses that contain literal `l`. */
  function Occurrences(clauses: seq<Clause>, l: Literal): set<nat>
  {
    set i: nat | i < |clauses| && l in clauses[i]
  }

  /** `defaultdict(set)` lookup: a missing literal reads as the empty set. */
  function Lookup(m: map<int, set<nat>>, l: Literal): set<nat>
  {
    if l in m then m[l] else {}
  }

  /** All literals, clause by clause, in file order. */
  function Flatten(clauses: seq<Clause>): (r: seq<Literal>)
    ensures forall l :: l in r <==> exists i :: 0 <= i < |clauses| && l in clauses[i]
  {
    if clauses == [] then []
    else
      var n := |clauses| - 1;
      assert forall i :: 0 <= i < n ==> clauses[..n][i] == clauses[i];
      Flatten(clauses[..n]) + clauses[n]
  }

  /** The variable of every literal, in file order. */
  function VarList(clauses: seq<Clause>): (r: seq<int>)
    ensures forall v :: v in r <==> exists l :: l in Flatten(clauses) && Var(l) == v
  {
    var f := Flatten(clauses);
    var r := seq(|f|, k requires 0 <= k < |f| => Var(f[k]) as int);
    assert forall l :: l in f ==> Var(l) as int in r by {
      forall l | l in f
        ensures Var(l) as int in r
      {
        var k :| 0 <= k < |f| && f[k] == l;
        assert r[k] == Var(l);
      }
    }
    r
  }

  /** The variables occurring in some clause. */
  function Vars(clauses: seq<Clause>): set<int>
  {
    set l | l in Flatten(clauses) :: Var(l) as int
  }

  /** Building the map: one pass over the clauses and their literals. The map
      is returned together with the order in which literals first became keys,
      which is the order `variable_map.items()` yields them. */
  method BuildOccurrences(clauses: seq<Clause>) returns (m: map<int, set<nat>>, firstSeen: seq<Literal>)
    ensures forall l :: Lookup(m, l) == Occurrences(clauses, l)
    ensures forall l :: l in m <==> l in firstSeen
    ensures firstSeen == Dedup(Flatten(clauses))
  {
    m, firstSeen := map[], [];
    for i := 0 to |clauses|
      invariant forall l :: Lookup(m, l) == Occurrences(clauses[..i], l)
      invariant forall l :: l in m <==> l in firstSeen
      invariant firstSeen == Dedup(Flatten(clauses[..i]))
    {
      m, firstSeen := AddClause(m, firstSeen, clauses[i], i);
      DedupAppend(Flatten(clauses[..i]), clauses[i]);
      assert clauses[..i + 1][..i] == clauses[..i];
      OccurrencesExtend(clauses, i);
    }
    assert clauses[..|clauses|] == clauses;
  }

  /** The inner loop: add clause index `i` to the set of each literal of `c`. */
  method AddClause(m0: map<int, set<nat>>, seen0: seq<Literal>, c: Clause, i: nat)
    returns (m: map<int, set<nat>>, firstSeen: seq<Literal>)
    requires forall l :: l in m0 <==> l in seen0
    ensures forall l :: Lookup(m, l) == Lookup(m0, l) + (if l in c then {i} else {})
    ensures forall l :: l in m <==> l in firstSeen
    ensures firstSeen == AppendNew(seen0, c)
  {
    m, firstSeen := m0, seen0;
    for j := 0 to |c|
      invariant forall l :: Lookup(m, l) == Lookup(m0, l) + (if l in c[..j] then {i} else {})
      invariant forall l :: l in m <==> l in firstSeen
      invariant firstSeen == AppendNew(seen0, c[..j])
    {
      var l := c[j];
      assert c[..j + 1][..j] == c[..j];
      if l !in m {
        firstSeen := firstSeen + [l];
      }
      ghost var prev := m;
      m := m[l := Lookup(m, l) + {i}];
      forall k
        ensures Lookup(m, k) == Lookup(m0, k) + (if k in c[..j + 1] then {i} else {})
      {
        assert k in c[..j + 1] <==> k in c[..j] || k == l;
        if k != l {
          assert Lookup(m, k) == Lookup(prev, k);
        }
      }
    }
    assert c[..|c|] == c;
  }

  lemma OccurrencesExtend(clauses: seq<Clause>, i: nat)
    requires i < |clauses|
    ensures forall l :: Occurrences(clauses[..i + 1], l)
                        == Occurrences(clauses[..i], l) + (if l in clauses[i] then {i} else {})
  {
    forall l
      ensures Occurrences(clauses[..i + 1], l) == Occurrences(clauses[..i], l) + (if l in clauses[i] then {i} else {})
    {
      assert forall k :: 0 <= k < i ==> clauses[..i + 1][k] == clauses[..i][k];
    }
  }

  /** The map's keys are exactly the literals that occur, each once. */
  lemma FirstSeenIsLiterals(clauses: seq<Clause>)
    ensures Distinct(Dedup(Flatten(clauses)))
    ensures forall l :: l in Dedup(Flatten(clauses)) <==> Occurrences(clauses, l) != {}
  {
    forall l
      ensures l in Dedup(Flatten(clauses)) <==> Occurrences(clauses, l) != {}
    {
      if l in Flatten(clauses) {
        var i :| 0 <= i < |clauses| && l in clauses[i];
        assert i in Occurrences(clauses, l);
      }
    }
  }

  /** A variable occurs exactly when one of its two literals does. */
  lemma VarsIff(clauses: seq<Clause>, v: int)
    requires v >= 0
    ensures v in Vars(clauses) <==> Occurrences(clauses, v) != {} || Occurrences(clauses, -v) != {}
  {
    if v in Vars(clauses) {
      var l :| l in Flatten(clauses) && Var(l) as int == v;
      var i :| 0 <= i < |clauses| && l in clauses[i];
      assert l == v || l == -v;
      assert i in Occurrences(clauses, l);
    }
    if Occurrences(clauses, v) != {} {
      var i :| i in Occurrences(clauses, v);
      assert v in Flatten(clauses);
    } else if Occurrences(clauses, -v) != {} {
      var i :| i in Occurrences(clauses, -v);
      assert -v in Flatten(clauses);
      assert Var(-v) as int == v;
    }
  }
}
