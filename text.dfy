/** The string handling the DIMACS readers rely on: Python's `str.strip()`,
    `str.split()` (no argument), `str.startswith` and `int()` on a decimal
    token, plus the inverse renderings used to state round trips. */
module Text {
  import opened Cnf

  /** The characters Python's `str.isspace` accepts: tab to carriage return,
      the information separators 0x1C-0x1F, space, and the Unicode spaces. */
  predicate IsSpace(ch: char)
  {
    if ch <= ' ' then ch == ' ' || ('\t' <= ch <= '\r') || ('\U{001C}' <= ch <= '\U{001F}')
    else ch == '\U{0085}' || ch == '\U{00A0}' || ('\U{1680}' <= ch && IsWideSpace(ch))
  }

  predicate IsWideSpace(ch: char)
  {
    || ch == '\U{1680}'
    || ('\U{2000}' <= ch <= '\U{200A}')
    || ch == '\U{2028}' || ch == '\U{2029}' || ch == '\U{202F}' || ch == '\U{205F}'
    || ch == '\U{3000}'
  }

  /** A token of `str.split()`: non-empty, without whitespace. */
  predicate IsWord(w: string)
  {
    |w| > 0 && forall k :: 0 <= k < |w| ==> !IsSpace(w[k])
  }

  /** A run of whitespace only (possibly empty). */
  predicate AllSpace(w: string)
  {
    forall k :: 0 <= k < |w| ==> IsSpace(w[k])
  }

  predicate StartsWith(s: string, prefix: string)
  {
    |prefix| <= |s| && s[..|prefix|] == prefix
  }

  /** Drop leading whitespace. */
  function TrimStart(s: string): (t: string)
    ensures |t| <= |s|
    ensures t == [] || !IsSpace(t[0])
  {
    if s != [] && IsSpace(s[0]) then TrimStart(s[1..]) else s
  }

  /** Drop trailing whitespace. */
  function TrimEnd(s: string): (t: string)
    ensures |t| <= |s|
    ensures t == [] || !IsSpace(t[|t| - 1])
  {
    if s != [] && IsSpace(s[|s| - 1]) then TrimEnd(s[..|s| - 1]) else s
  }

  /** `str.strip()`. */
  function Strip(s: string): string
  {
    TrimEnd(TrimStart(s))
  }

  /** Length of the leading run of non-whitespace characters. */
  function WordLength(s: string): (n: nat)
    ensures n <= |s|
    ensures forall k :: 0 <= k < n ==> !IsSpace(s[k])
    ensures n < |s| ==> IsSpace(s[n])
  {
    if s == [] || IsSpace(s[0]) then 0 else 1 + WordLength(s[1..])
  }

  /** `str.split()`: the maximal runs of non-whitespace characters. */
  function Split(s: string): (words: seq<string>)
    ensures forall k :: 0 <= k < |words| ==> IsWord(words[k])
    decreases |s|
  {
    var t := TrimStart(s);
    if t == [] then []
    else
      var n := WordLength(t);
      [t[..n]] + Split(t[n..])
  }

  predicate IsDigit(ch: char)
  {
    '0' <= ch <= '9'
  }

  predicate AllDigits(s: string)
  {
    forall k :: 0 <= k < |s| ==> IsDigit(s[k])
  }

  /** The decimal value of a string of digits (leading zeros allowed). */
  function DigitsValue(s: string): nat
    requires AllDigits(s)
  {
    if s == [] then 0
    else DigitsValue(s[..|s| - 1]) * 10 + ((s[|s| - 1] as int) - ('0' as int))
  }

  /** `int(token)` for a token of `str.split()`: an optional sign and one or
      more decimal digits; anything else raises, modelled as None. */
  function ParseInt(w: string): Option<int>
  {
    if w == [] then None
    else if w[0] == '-' || w[0] == '+' then
      var d := w[1..];
      if d != [] && AllDigits(d) then
        var v: int := DigitsValue(d);
        Some(if w[0] == '-' then -v else v)
      else None
    else if AllDigits(w) then Some(DigitsValue(w))
    else None
  }

  /** `list(map(int, words))`: every token converted, or None when one fails. */
  function ParseInts(words: seq<string>): (r: Option<seq<int>>)
    ensures r.Some? ==> |r.value| == |words|
    ensures r.Some? <==> forall k :: 0 <= k < |words| ==> ParseInt(words[k]).Some?
    ensures r.Some? ==> forall k :: 0 <= k < |words| ==> Some(r.value[k]) == ParseInt(words[k])
  {
    if words == [] then Some([])
    else
      match ParseInt(words[0])
      case None => None
      case Some(n) =>
        match ParseInts(words[1..])
        case None => None
        case Some(rest) => Some([n] + rest)
  }

  /** `xs[:-1]`: everything but the last element; [] stays []. */
  function DropLast(xs: seq<int>): (r: seq<int>)
    ensures xs == [] ==> r == []
    ensures xs != [] ==> xs == r + [xs[|xs| - 1]]
  {
    if xs == [] then [] else xs[..|xs| - 1]
  }

  function DigitChar(d: nat): char
    requires d < 10
  {
    (('0' as int) + d) as char
  }

  /** Decimal rendering of a natural number, without leading zeros. */
  function NatToString(n: nat): (s: string)
    ensures |s| > 0 && AllDigits(s)
  {
    if n < 10 then [DigitChar(n)] else NatToString(n / 10) + [DigitChar(n % 10)]
  }

  /** Decimal rendering of an integer, as `str(n)` writes it. */
  function IntToString(n: int): (s: string)
    ensures IsWord(s)
    ensures s[0] == '-' || IsDigit(s[0])
  {
    if n < 0 then "-" + NatToString(-n) else NatToString(n)
  }

  /** Words joined by single spaces, as `' '.join(words)`. */
  function Join(words: seq<string>): string
  {
    if words == [] then ""
    else if |words| == 1 then words[0]
    else words[0] + " " + Join(words[1..])
  }

  lemma {:induction false} DigitsOfNat(n: nat)
    ensures DigitsValue(NatToString(n)) == n
  {
    if n >= 10 {
      DigitsOfNat(n / 10);
      var s := NatToString(n);
      assert s[..|s| - 1] == NatToString(n / 10);
    }
  }

  /** `int(str(n)) == n`. */
  lemma ParseIntOfString(n: int)
    ensures ParseInt(IntToString(n)) == Some(n)
  {
    if n < 0 {
      ParseNegativeString(-n);
    } else {
      ParseNatString(n);
    }
  }

  lemma ParseNatString(n: nat)
    ensures ParseInt(NatToString(n)) == Some(n)
  {
    DigitsOfNat(n);
    var s := NatToString(n);
    assert IsDigit(s[0]);
  }

  lemma ParseNegativeString(m: nat)
    ensures ParseInt("-" + NatToString(m)) == Some(-(m as int))
  {
    DigitsOfNat(m);
    var w := "-" + NatToString(m);
    assert w[0] == '-' && w[1..] == NatToString(m);
  }

  /** Converting the rendering of a list of integers gives the list back. */
  lemma {:induction false} ParseIntsOfStrings(ns: seq<int>, words: seq<string>)
    requires |words| == |ns|
    requires forall k :: 0 <= k < |ns| ==> words[k] == IntToString(ns[k])
    ensures ParseInts(words) == Some(ns)
  {
    if ns != [] {
      ParseIntOfString(ns[0]);
      assert ParseInt(words[0]) == Some(ns[0]);
      ParseIntsOfStrings(ns[1..], words[1..]);
      assert ParseInts(words[1..]) == Some(ns[1..]);
      assert ns == [ns[0]] + ns[1..];
    }
  }

  /** Splitting only looks past the leading whitespace. */
  lemma SplitAfterSpace(s: string)
    ensures Split(" " + s) == Split(s)
  {
    assert (" " + s)[1..] == s;
  }

  /** The text before the first whitespace character of `w + " " + rest` is `w`. */
  lemma {:induction false} WordLengthOfJoin(w: string, rest: string)
    requires IsWord(w)
    ensures WordLength(w + rest) >= |w|
    ensures |rest| > 0 && IsSpace(rest[0]) ==> WordLength(w + rest) == |w|
  {
    if |w| > 1 {
      assert (w + rest)[1..] == w[1..] + rest;
      WordLengthOfJoin(w[1..], rest);
    } else {
      assert (w + rest)[1..] == rest;
    }
  }

  /** `' '.join(words).split() == words` when every word is a split token. */
  lemma {:induction false} SplitJoin(words: seq<string>)
    requires forall k :: 0 <= k < |words| ==> IsWord(words[k])
    ensures Split(Join(words)) == words
  {
    if words == [] {
    } else if |words| == 1 {
      var w := words[0];
      assert TrimStart(w) == w;
      WordLengthOfJoin(w, "");
      assert w + "" == w;
      assert w[|w|..] == "";
    } else {
      var w := words[0];
      var rest := Join(words[1..]);
      var s := w + " " + rest;
      assert Join(words) == w + (" " + rest);
      assert TrimStart(s) == s;
      WordLengthOfJoin(w, " " + rest);
      assert s[..|w|] == w;
      assert s[|w|..] == " " + rest;
      SplitAfterSpace(rest);
      SplitJoin(words[1..]);
    }
  }

  /** Joined split tokens start with the first token and carry no whitespace
      at either end, so `str.strip()` leaves them alone. */
  lemma {:induction false} StripJoin(words: seq<string>)
    requires |words| > 0
    requires forall k :: 0 <= k < |words| ==> IsWord(words[k])
    ensures Strip(Join(words)) == Join(words)
    ensures StartsWith(Join(words), words[0])
  {
    JoinEnds(words);
    var s := Join(words);
    assert TrimStart(s) == s;
  }

  lemma {:induction false} JoinEnds(words: seq<string>)
    requires |words| > 0
    requires forall k :: 0 <= k < |words| ==> IsWord(words[k])
    ensures |Join(words)| > 0 && !IsSpace(Join(words)[0]) && !IsSpace(Join(words)[|Join(words)| - 1])
    ensures StartsWith(Join(words), words[0])
  {
    if |words| > 1 {
      JoinEnds(words[1..]);
    }
  }

  /** Leading whitespace is skipped whatever follows it. */
  lemma {:induction false} TrimStartAfterSpace(w: string, s: string)
    requires AllSpace(w)
    ensures TrimStart(w + s) == TrimStart(s)
  {
    if w != [] {
      assert (w + s)[1..] == w[1..] + s;
      TrimStartAfterSpace(w[1..], s);
    } else {
      assert w + s == s;
    }
  }

  /** Once a non-space character is reached, what follows is kept as is. */
  lemma {:induction false} TrimStartBeforeText(s: string, w: string)
    requires TrimStart(s) != []
    ensures TrimStart(s + w) == TrimStart(s) + w
  {
    if IsSpace(s[0]) {
      assert (s + w)[1..] == s[1..] + w;
      TrimStartBeforeText(s[1..], w);
    }
  }

  /** Trailing whitespace does not lengthen the leading word. */
  lemma {:induction false} WordLengthBeforeSpace(t: string, w: string)
    requires AllSpace(w)
    ensures WordLength(t + w) == WordLength(t)
  {
    if t == [] {
      assert t + w == w;
    } else if !IsSpace(t[0]) {
      assert (t + w)[1..] == t[1..] + w;
      WordLengthBeforeSpace(t[1..], w);
    }
  }

  /** `str.split()` ignores whitespace before the first word and after the
      last, so a raw line ending in a newline splits like the stripped line. */
  lemma SplitIgnoresOuterSpace(w: string, s: string)
    requires AllSpace(w)
    ensures Split(w + s) == Split(s)
    ensures Split(s + w) == Split(s)
  {
    TrimStartAfterSpace(w, s);
    SplitBeforeSpace(s, w);
  }

  lemma {:induction false} SplitBeforeSpace(s: string, w: string)
    requires AllSpace(w)
    ensures Split(s + w) == Split(s)
    decreases |s|
  {
    var t := TrimStart(s);
    if t == [] {
      TrimStartDropsSpace(s);
      assert s[..|s|] == s;
      TrimStartAfterSpace(s, w);
      assert TrimStart(w) == [] by {
        assert w + [] == w;
        TrimStartAfterSpace(w, []);
      }
    } else {
      TrimStartBeforeText(s, w);
      var n := WordLength(t);
      WordLengthBeforeSpace(t, w);
      assert (t + w)[..n] == t[..n];
      assert (t + w)[n..] == t[n..] + w;
      SplitBeforeSpace(t[n..], w);
    }
  }

  /** `lstrip` removes whitespace only: the line is the dropped whitespace
      followed by what is kept. */
  lemma {:induction false} TrimStartDropsSpace(s: string)
    ensures s == s[..|s| - |TrimStart(s)|] + TrimStart(s)
    ensures AllSpace(s[..|s| - |TrimStart(s)|])
  {
    if s != [] && IsSpace(s[0]) {
      TrimStartDropsSpace(s[1..]);
      var k := |s| - |TrimStart(s)|;
      assert s[..k] == [s[0]] + s[1..][..k - 1];
    }
  }

  /** `rstrip` removes whitespace only: the line is what is kept followed by
      the dropped whitespace. */
  lemma {:induction false} TrimEndDropsSpace(s: string)
    ensures s == TrimEnd(s) + s[|TrimEnd(s)|..]
    ensures AllSpace(s[|TrimEnd(s)|..])
  {
    if s != [] && IsSpace(s[|s| - 1]) {
      var p := s[..|s| - 1];
      TrimEndDropsSpace(p);
      var k := |TrimEnd(s)|;
      assert s[k..] == p[k..] + [s[|s| - 1]];
    }
  }
}
