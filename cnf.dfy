/** Vocabulary shared by the three solver versions: literals, clauses,
    assignments and the entries of the decision trace. */
module Cnf {

  /** A signed integer: its magnitude names a variable, its sign the polarity
      that makes it true. Zero is not excluded: a clause line such as
      "1 0 2 0" hands the solver the literal 0. */
  type Literal = int

  type Clause = seq<Literal>

  /** Variable id to value. A variable that is not a key is unassigned, which
      is neither true nor false. */
  type Assignment = map<int, bool>

  /** `abs(literal)`: the variable a literal names. */
  function Var(l: Literal): nat
  {
    if l < 0 then -l else l
  }

  /** One entry of the decision trace (the human-readable reason string is
      reduced to the numbers it quotes).
      - Chose: a construction step; `pos` is the clause-set size of the
        visited literal and `neg` that of its negation.
      - Flipped: an accepted local-search move towards clause `target`. */
  datatype Decision =
    | Chose(variable: int, value: bool, pos: nat, neg: nat)
    | Flipped(variable: int, value: bool, target: nat, gain: int, cost: nat)

  /** A parsed DIMACS file: the header's variable count and the clauses. */
  datatype Formula = Formula(numVars: int, clauses: seq<Clause>)

  datatype Option<T> = None | Some(value: T)

  /** Every literal of every clause is non-zero: the well-formed DIMACS case. */
  predicate NoZeroLiteral(clauses: seq<Clause>)
  {
    forall i, j :: 0 <= i < |clauses| && 0 <= j < |clauses[i]| ==> clauses[i][j] != 0
  }
}
