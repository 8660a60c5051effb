/** The DIMACS CNF reader of Latest_Research.py (`parse_dimacs`), over the
    lines of the file; opening the file is left to the caller. Any exception
    raised while reading collapses into the empty formula (0, []). */
module Dimacs {
  import opened Cnf
  import opened Text

  /** What one line contributes. Malformed stands for a line whose conversion
      raises (`IndexError` on a short header, `ValueError` from `int`). */
  datatype LineKind = Skip | Header(numVars: int) | ClauseLine(literals: seq<int>) | Malformed

  /** One iteration of the reading loop, on the stripped line. */
  function Classify(line: string): LineKind
  {
    var t := Strip(line);
    if t == [] || t[0] == 'c' || t[0] == '%' then Skip
    else if StartsWith(t, "p cnf") then
      var parts := Split(t);
      if |parts| < 3 then Malformed
      else
        match ParseInt(parts[2])
        case None => Malformed
        case Some(n) => Header(n)
    else
      match ParseInts(Split(t))
      case None => Malformed
      case Some(ns) => ClauseLine(DropLast(ns))
  }

  /** The kind of every line, in order. */
  function Kinds(lines: seq<string>): (ks: seq<LineKind>)
    ensures |ks| == |lines| && forall i :: 0 <= i < |lines| ==> ks[i] == Classify(lines[i])
  {
    seq(|lines|, i requires 0 <= i < |lines| => Classify(lines[i]))
  }

  /** The state after reading lines of the given kinds in order, or None once
      a line raised. A clause that is empty after dropping its terminator is
      not kept. */
  function ScanKinds(kinds: seq<LineKind>): (r: Option<Formula>)
    ensures r.Some? ==> forall k :: 0 <= k < |r.value.clauses| ==> r.value.clauses[k] != []
  {
    if kinds == [] then Some(Formula(0, []))
    else
      match ScanKinds(kinds[..|kinds| - 1])
      case None => None
      case Some(f) =>
        match kinds[|kinds| - 1]
        case Skip => Some(f)
        case Header(n) => Some(f.(numVars := n))
        case ClauseLine(c) => Some(if c == [] then f else f.(clauses := f.clauses + [c]))
        case Malformed => None
  }

  function Scan(lines: seq<string>): Option<Formula>
  {
    ScanKinds(Kinds(lines))
  }

  /** What `parse_dimacs` returns: the scanned formula, or (0, []) on an exception. */
  function Parsed(lines: seq<string>): Formula
  {
    match Scan(lines)
    case None => Formula(0, [])
    case Some(f) => f
  }

  /** `parse_dimacs`, with the file already split into lines. */
  method ParseDimacs(lines: seq<string>) returns (numVars: int, clauses: seq<Clause>)
    ensures Formula(numVars, clauses) == Parsed(lines)
    ensures forall k :: 0 <= k < |clauses| ==> clauses[k] != []
  {
    numVars, clauses := 0, [];
    for i := 0 to |lines|
      invariant ScanKinds(Kinds(lines)[..i]) == Some(Formula(numVars, clauses))
    {
      assert Kinds(lines)[..i + 1][..i] == Kinds(lines)[..i];
      var t := Strip(lines[i]);
      if t == [] || t[0] == 'c' || t[0] == '%' {
        continue;
      }
      if StartsWith(t, "p cnf") {
        var parts := Split(t);
        if |parts| < 3 {
          FailureSticks(Kinds(lines), i + 1);
          return 0, [];
        }
        var n := ParseInt(parts[2]);
        if n.None? {
          FailureSticks(Kinds(lines), i + 1);
          return 0, [];
        }
        numVars := n.value;
        continue;
      }
      var ints := ParseInts(Split(t));
      if ints.None? {
        FailureSticks(Kinds(lines), i + 1);
        return 0, [];
      }
      var clause := DropLast(ints.value);
      if clause != [] {
        clauses := clauses + [clause];
      }
    }
    assert Kinds(lines)[..|lines|] == Kinds(lines);
  }

  /** Once a line has raised, later lines change nothing. */
  lemma {:induction false} FailureSticks(kinds: seq<LineKind>, i: nat)
    requires i <= |kinds|
    requires ScanKinds(kinds[..i]) == None
    ensures ScanKinds(kinds) == None
  {
    if i < |kinds| {
      var n := |kinds| - 1;
      assert kinds[..n][..i] == kinds[..i];
      FailureSticks(kinds[..n], i);
    } else {
      assert kinds[..i] == kinds;
    }
  }

  /** Reading fails (and yields (0, [])) exactly when some line raises. */
  lemma {:induction false} ScanFailsIff(kinds: seq<LineKind>)
    ensures ScanKinds(kinds) == None <==> exists i :: 0 <= i < |kinds| && kinds[i] == Malformed
  {
    if kinds != [] {
      var n := |kinds| - 1;
      ScanFailsIff(kinds[..n]);
      assert forall i :: 0 <= i < n ==> kinds[..n][i] == kinds[i];
    }
  }

  /** A blank, comment (`c`, `%`) or `p cnf` line adds no clause wherever it
      stands: removing it leaves the clause list and the success of reading
      unchanged. */
  lemma {:induction false} NonClauseLineAddsNothing(before: seq<LineKind>, line: LineKind, after: seq<LineKind>)
    requires line.Skip? || line.Header?
    ensures ScanKinds(before + [line] + after).None? == ScanKinds(before + after).None?
    ensures ScanKinds(before + [line] + after).Some? ==>
              ScanKinds(before + [line] + after).value.clauses == ScanKinds(before + after).value.clauses
  {
    if after == [] {
      assert before + [line] + after == before + [line];
      assert (before + [line])[..|before|] == before;
      assert before + after == before;
    } else {
      var n := |after| - 1;
      NonClauseLineAddsNothing(before, line, after[..n]);
      assert (before + [line] + after)[..|before| + 1 + n] == before + [line] + after[..n];
      assert (before + after)[..|before| + n] == before + after[..n];
    }
  }

  /** The text of a DIMACS header line `p cnf <V> <C>`. */
  function HeaderText(numVars: int, numClauses: int): string
  {
    Join(["p", "cnf", IntToString(numVars), IntToString(numClauses)])
  }

  function IntStrings(ns: seq<int>): (ws: seq<string>)
    ensures |ws| == |ns| && forall k :: 0 <= k < |ns| ==> ws[k] == IntToString(ns[k])
  {
    seq(|ns|, k requires 0 <= k < |ns| => IntToString(ns[k]))
  }

  /** The text of a clause line: its literals and the terminating 0. */
  function ClauseText(c: Clause): string
  {
    Join(IntStrings(c + [0]))
  }

  /** One clause line per clause. */
  function ClauseLines(cs: seq<Clause>): (lines: seq<string>)
    ensures |lines| == |cs| && forall k :: 0 <= k < |cs| ==> lines[k] == ClauseText(cs[k])
  {
    seq(|cs|, k requires 0 <= k < |cs| => ClauseText(cs[k]))
  }

  /** A DIMACS text for `numVars` variables and the clauses `cs`. */
  function Render(numVars: int, cs: seq<Clause>): (lines: seq<string>)
    ensures |lines| == |cs| + 1
  {
    [HeaderText(numVars, |cs|)] + ClauseLines(cs)
  }

  /** The kinds of the clause lines of `cs`. */
  function ClauseKinds(cs: seq<Clause>): (kinds: seq<LineKind>)
    ensures |kinds| == |cs| && forall k :: 0 <= k < |cs| ==> kinds[k] == ClauseLine(cs[k])
  {
    seq(|cs|, k requires 0 <= k < |cs| => ClauseLine(cs[k]))
  }

  lemma ClassifyHeaderText(numVars: int, numClauses: int)
    ensures Classify(HeaderText(numVars, numClauses)) == Header(numVars)
  {
    var words := ["p", "cnf", IntToString(numVars), IntToString(numClauses)];
    assert IsWord("p") && IsWord("cnf");
    StripJoin(words);
    SplitJoin(words);
    HeaderTextStarts(numVars, numClauses);
    ParseIntOfString(numVars);
  }

  lemma HeaderTextStarts(numVars: int, numClauses: int)
    ensures StartsWith(HeaderText(numVars, numClauses), "p cnf")
  {
    var words := ["p", "cnf", IntToString(numVars), IntToString(numClauses)];
    var t := Join(words);
    assert words[1..][0] == "cnf" && words[1..][1..] == words[2..];
    assert Join(words[1..]) == "cnf" + " " + Join(words[2..]);
    assert t == "p" + " " + ("cnf" + " " + Join(words[2..]));
    assert t[..5] == "p cnf";
  }

  lemma ClassifyClauseText(c: Clause)
    requires c != []
    ensures Classify(ClauseText(c)) == ClauseLine(c)
  {
    var words := IntStrings(c + [0]);
    StripJoin(words);
    SplitJoin(words);
    ParseIntsOfStrings(c + [0], words);
    var t := ClauseText(c);
    assert t[0] == words[0][0];
    assert !StartsWith(t, "p cnf");
    assert DropLast(c + [0]) == c;
  }

  /** Reading a rendered formula gives it back: every non-empty clause in
      order, and the variable count from the header. */
  lemma ParseRender(numVars: int, cs: seq<Clause>)
    requires forall k :: 0 <= k < |cs| ==> cs[k] != []
    ensures Parsed(Render(numVars, cs)) == Formula(numVars, cs)
  {
    KindsOfRender(numVars, cs);
    ScanClauseKinds(numVars, cs);
  }

  lemma KindsOfRender(numVars: int, cs: seq<Clause>)
    requires forall k :: 0 <= k < |cs| ==> cs[k] != []
    ensures Kinds(Render(numVars, cs)) == [Header(numVars)] + ClauseKinds(cs)
  {
    var header := HeaderText(numVars, |cs|);
    KindsAppend([header], ClauseLines(cs));
    ClassifyHeaderText(numVars, |cs|);
    assert Kinds([header]) == [Header(numVars)];
    ClauseLinesKinds(cs);
  }

  /** Classifying is line by line. */
  lemma KindsAppend(a: seq<string>, b: seq<string>)
    ensures Kinds(a + b) == Kinds(a) + Kinds(b)
  {
    assert forall i :: 0 <= i < |b| ==> (a + b)[|a| + i] == b[i];
  }

  lemma ClauseLinesKinds(cs: seq<Clause>)
    requires forall k :: 0 <= k < |cs| ==> cs[k] != []
    ensures Kinds(ClauseLines(cs)) == ClauseKinds(cs)
  {
    var lines := ClauseLines(cs);
    forall k | 0 <= k < |cs|
      ensures Classify(lines[k]) == ClauseLine(cs[k])
    {
      ClassifyClauseText(cs[k]);
    }
  }

  lemma {:induction false} ScanClauseKinds(numVars: int, cs: seq<Clause>)
    requires forall k :: 0 <= k < |cs| ==> cs[k] != []
    ensures ScanKinds([Header(numVars)] + ClauseKinds(cs)) == Some(Formula(numVars, cs))
  {
    var kinds := [Header(numVars)] + ClauseKinds(cs);
    if cs == [] {
      assert kinds[..0] == [];
    } else {
      var n := |cs| - 1;
      ScanClauseKinds(numVars, cs[..n]);
      assert kinds[..|kinds| - 1] == [Header(numVars)] + ClauseKinds(cs[..n]);
      assert cs[..n] + [cs[n]] == cs;
    }
  }
}
