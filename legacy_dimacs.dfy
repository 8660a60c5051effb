/** The DIMACS reader of Research.py (`parse_dimacs`, the same text as in
    Research4.py), over the lines of the file. Unlike the later reader it
    tests the raw line, skips lines starting with `0`, takes any `p` line as
    the header, keeps a clause that is empty after dropping its terminator,
    and lets exceptions escape: a failing conversion, and a file without a
    header (`num_variables` is then unbound at the return). */
module LegacyDimacs {
  import opened Cnf
  import opened Text
  import Dimacs

  /** What one line contributes; Malformed raises. */
  datatype LineKind = Skip | Header(numVars: int, numClauses: int) | ClauseLine(literals: seq<int>) | Malformed

  /** The exception that escapes the reader. */
  datatype ParseError =
    | RaisedAt(line: nat)   // `ValueError` or `IndexError` while converting that line
    | MissingHeader         // `UnboundLocalError`: no `p` line set `num_variables`

  datatype Result<T> = Ok(value: T) | Err(error: ParseError)

  /** The reader's locals: `num_variables` (unbound until a header) and `clauses`. */
  datatype State = State(numVars: Option<int>, clauses: seq<Clause>)

  /** One iteration of the reading loop, on the line as read. `line.strip().split()`
      equals `line.split()`, which is what is written here. */
  function Classify(line: string): LineKind
  {
    if StartsWith(line, "c") || StartsWith(line, "%") || StartsWith(line, "0") || Strip(line) == [] then Skip
    else if StartsWith(line, "p") then
      var parts := Split(line);
      if |parts| < 3 then Malformed
      else
        match ParseInt(parts[2])
        case None => Malformed
        case Some(n) =>
          if |parts| < 4 then Malformed
          else
            match ParseInt(parts[3])
            case None => Malformed
            case Some(m) => Header(n, m)
    else
      match ParseInts(Split(line))
      case None => Malformed
      case Some(ns) => ClauseLine(DropLast(ns))
  }

  function Kinds(lines: seq<string>): (ks: seq<LineKind>)
    ensures |ks| == |lines| && forall i :: 0 <= i < |lines| ==> ks[i] == Classify(lines[i])
  {
    seq(|lines|, i requires 0 <= i < |lines| => Classify(lines[i]))
  }

  /** The state after reading lines of the given kinds, or the exception of
      the first malformed one. */
  function ScanKinds(kinds: seq<LineKind>): Result<State>
  {
    if kinds == [] then Ok(State(None, []))
    else
      match ScanKinds(kinds[..|kinds| - 1])
      case Err(e) => Err(e)
      case Ok(st) =>
        match kinds[|kinds| - 1]
        case Skip => Ok(st)
        case Header(n, _) => Ok(st.(numVars := Some(n)))
        case ClauseLine(c) => Ok(st.(clauses := st.clauses + [c]))
        case Malformed => Err(RaisedAt(|kinds| - 1))
  }

  /** What `parse_dimacs` returns or raises. */
  function Parsed(lines: seq<string>): Result<Formula>
  {
    match ScanKinds(Kinds(lines))
    case Err(e) => Err(e)
    case Ok(st) =>
      if st.numVars.None? then Err(MissingHeader) else Ok(Formula(st.numVars.value, st.clauses))
  }

  /** `parse_dimacs`, with the file already split into lines. */
  method ParseDimacs(lines: seq<string>) returns (r: Result<Formula>)
    ensures r == Parsed(lines)
  {
    var numVars: Option<int> := None;
    var clauses: seq<Clause> := [];
    for i := 0 to |lines|
      invariant ScanKinds(Kinds(lines)[..i]) == Ok(State(numVars, clauses))
    {
      assert Kinds(lines)[..i + 1][..i] == Kinds(lines)[..i];
      var line := lines[i];
      if StartsWith(line, "c") || StartsWith(line, "%") || StartsWith(line, "0") || Strip(line) == [] {
        continue;
      }
      if StartsWith(line, "p") {
        var parts := Split(line);
        if |parts| < 3 {
          ErrorSticks(Kinds(lines), i + 1);
          return Err(RaisedAt(i));
        }
        var n := ParseInt(parts[2]);
        if n.None? || |parts| < 4 {
          ErrorSticks(Kinds(lines), i + 1);
          return Err(RaisedAt(i));
        }
        var m := ParseInt(parts[3]);
        if m.None? {
          ErrorSticks(Kinds(lines), i + 1);
          return Err(RaisedAt(i));
        }
        numVars := Some(n.value);
        continue;
      }
      var ints := ParseInts(Split(line));
      if ints.None? {
        ErrorSticks(Kinds(lines), i + 1);
        return Err(RaisedAt(i));
      }
      clauses := clauses + [DropLast(ints.value)];
    }
    assert Kinds(lines)[..|lines|] == Kinds(lines);
    if numVars.None? {
      return Err(MissingHeader);
    }
    return Ok(Formula(numVars.value, clauses));
  }

  /** The first exception is the one that escapes. */
  lemma {:induction false} ErrorSticks(kinds: seq<LineKind>, i: nat)
    requires i <= |kinds|
    requires ScanKinds(kinds[..i]).Err?
    ensures ScanKinds(kinds) == ScanKinds(kinds[..i])
  {
    if i < |kinds| {
      var n := |kinds| - 1;
      assert kinds[..n][..i] == kinds[..i];
      ErrorSticks(kinds[..n], i);
    } else {
      assert kinds[..i] == kinds;
    }
  }

  function CountClauseLines(kinds: seq<LineKind>): nat
  {
    if kinds == [] then 0
    else CountClauseLines(kinds[..|kinds| - 1]) + (if kinds[|kinds| - 1].ClauseLine? then 1 else 0)
  }

  /** Every clause line is kept, including one left empty by dropping its
      last token; and `num_variables` is bound exactly when a header was read. */
  lemma {:induction false} EveryClauseLineKept(kinds: seq<LineKind>)
    requires ScanKinds(kinds).Ok?
    ensures |ScanKinds(kinds).value.clauses| == CountClauseLines(kinds)
    ensures ScanKinds(kinds).value.numVars.Some? <==> exists i :: 0 <= i < |kinds| && kinds[i].Header?
  {
    if kinds != [] {
      var n := |kinds| - 1;
      EveryClauseLineKept(kinds[..n]);
      assert forall i :: 0 <= i < n ==> kinds[..n][i] == kinds[i];
    }
  }

  /** Reading fails with the index of the first malformed line when there is one. */
  lemma {:induction false} FirstMalformedRaises(kinds: seq<LineKind>, i: nat)
    requires i < |kinds| && kinds[i] == Malformed
    requires forall j :: 0 <= j < i ==> kinds[j] != Malformed
    ensures ScanKinds(kinds) == Err(RaisedAt(i))
  {
    NoMalformedScans(kinds[..i]);
    assert kinds[..i + 1][..i] == kinds[..i];
    ErrorSticks(kinds, i + 1);
  }

  lemma {:induction false} NoMalformedScans(kinds: seq<LineKind>)
    requires forall j :: 0 <= j < |kinds| ==> kinds[j] != Malformed
    ensures ScanKinds(kinds).Ok?
  {
    if kinds != [] {
      NoMalformedScans(kinds[..|kinds| - 1]);
    }
  }

  lemma ClassifyHeaderText(numVars: int, numClauses: int)
    ensures Classify(Dimacs.HeaderText(numVars, numClauses)) == Header(numVars, numClauses)
  {
    var words := ["p", "cnf", IntToString(numVars), IntToString(numClauses)];
    assert IsWord("p") && IsWord("cnf");
    StripJoin(words);
    SplitJoin(words);
    ParseIntOfString(numVars);
    ParseIntOfString(numClauses);
  }

  lemma ClassifyClauseText(c: Clause)
    requires c != [] && c[0] != 0
    ensures Classify(Dimacs.ClauseText(c)) == ClauseLine(c)
  {
    var words := Dimacs.IntStrings(c + [0]);
    var t := Dimacs.ClauseText(c);
    StripJoin(words);
    SplitJoin(words);
    ParseIntsOfStrings(c + [0], words);
    LeadingCharOfClauseText(c);
    assert !StartsWith(t, "c") && !StartsWith(t, "%") && !StartsWith(t, "0") && !StartsWith(t, "p") by {
      assert forall p: string :: |p| == 1 && StartsWith(t, p) ==> p[0] == t[0];
    }
    assert DropLast(c + [0]) == c;
  }

  lemma LeadingCharOfClauseText(c: Clause)
    requires c != [] && c[0] != 0
    ensures |Dimacs.ClauseText(c)| > 0
    ensures Dimacs.ClauseText(c)[0] == '-' || ('1' <= Dimacs.ClauseText(c)[0] <= '9')
  {
    var words := Dimacs.IntStrings(c + [0]);
    JoinEnds(words);
    var t := Dimacs.ClauseText(c);
    assert t[..|words[0]|] == words[0];
    assert words[0] == IntToString(c[0]);
    if c[0] > 0 {
      NatStringLeadingDigit(c[0]);
    }
  }

  /** A positive number is written without a leading `0`. */
  lemma {:induction false} NatStringLeadingDigit(n: nat)
    requires n > 0
    ensures NatToString(n)[0] != '0'
  {
    if n >= 10 {
      NatStringLeadingDigit(n / 10);
    }
  }

  /** The kinds of the clause lines of `cs`. */
  function ClauseKinds(cs: seq<Clause>): (kinds: seq<LineKind>)
    ensures |kinds| == |cs| && forall k :: 0 <= k < |cs| ==> kinds[k] == ClauseLine(cs[k])
  {
    seq(|cs|, k requires 0 <= k < |cs| => ClauseLine(cs[k]))
  }

  /** Reading a rendered formula gives it back, provided no clause is empty
      and none starts with literal 0 (such lines start with `0` and are skipped). */
  lemma ParseRender(numVars: int, cs: seq<Clause>)
    requires forall k :: 0 <= k < |cs| ==> cs[k] != [] && cs[k][0] != 0
    ensures Parsed(Dimacs.Render(numVars, cs)) == Ok(Formula(numVars, cs))
  {
    KindsOfRender(numVars, cs);
    ScanClauseKinds(numVars, |cs|, cs);
  }

  lemma KindsOfRender(numVars: int, cs: seq<Clause>)
    requires forall k :: 0 <= k < |cs| ==> cs[k] != [] && cs[k][0] != 0
    ensures Kinds(Dimacs.Render(numVars, cs)) == [Header(numVars, |cs|)] + ClauseKinds(cs)
  {
    var header := Dimacs.HeaderText(numVars, |cs|);
    KindsAppend([header], Dimacs.ClauseLines(cs));
    ClassifyHeaderText(numVars, |cs|);
    assert Kinds([header]) == [Header(numVars, |cs|)];
    ClauseLinesKinds(cs);
  }

  /** Classifying is line by line. */
  lemma KindsAppend(a: seq<string>, b: seq<string>)
    ensures Kinds(a + b) == Kinds(a) + Kinds(b)
  {
    assert forall i :: 0 <= i < |b| ==> (a + b)[|a| + i] == b[i];
  }

  lemma ClauseLinesKinds(cs: seq<Clause>)
    requires forall k :: 0 <= k < |cs| ==> cs[k] != [] && cs[k][0] != 0
    ensures Kinds(Dimacs.ClauseLines(cs)) == ClauseKinds(cs)
  {
    var lines := Dimacs.ClauseLines(cs);
    forall k | 0 <= k < |cs|
      ensures Classify(lines[k]) == ClauseLine(cs[k])
    {
      ClassifyClauseText(cs[k]);
    }
  }

  lemma {:induction false} ScanClauseKinds(numVars: int, numClauses: int, cs: seq<Clause>)
    ensures ScanKinds([Header(numVars, numClauses)] + ClauseKinds(cs)) == Ok(State(Some(numVars), cs))
  {
    var kinds := [Header(numVars, numClauses)] + ClauseKinds(cs);
    if cs == [] {
      assert kinds[..0] == [];
    } else {
      var n := |cs| - 1;
      ScanClauseKinds(numVars, numClauses, cs[..n]);
      assert kinds[..|kinds| - 1] == [Header(numVars, numClauses)] + ClauseKinds(cs[..n]);
      assert cs[..n] + [cs[n]] == cs;
    }
  }
}
