/** The two orders the solvers depend on: the key order of a dict filled from
    a sequence (first appearance), and Python's `sorted(..., key=k,
    reverse=True)`, which is stable: elements with equal keys keep their
    input order. `sorted` is a library call, so it is specified here as a
    stable insertion sort on values. */
module Ordering {

  predicate Distinct(s: seq<int>)
  {
    forall i, j :: 0 <= i < j < |s| ==> s[i] != s[j]
  }

  /** In a sequence without repeats an element is not among those before it. */
  lemma DistinctNotBefore(s: seq<int>, i: nat)
    requires Distinct(s) && i < |s|
    ensures s[i] !in s[..i]
  {
    forall j | 0 <= j < i
      ensures s[..i][j] != s[i]
    {
      assert s[..i][j] == s[j];
    }
  }

  /** The distinct elements of `xs` in order of first appearance. */
  function Dedup(xs: seq<int>): (r: seq<int>)
    ensures forall x :: x in r <==> x in xs
    ensures Distinct(r)
  {
    if xs == [] then []
    else
      var n := |xs| - 1;
      assert xs == xs[..n] + [xs[n]];
      var d := Dedup(xs[..n]);
      if xs[n] in d then d else d + [xs[n]]
  }

  /** The first-appearance order after reading `xs`, when `seen` was read before. */
  function AppendNew(seen: seq<int>, xs: seq<int>): seq<int>
  {
    if xs == [] then seen
    else
      var s := AppendNew(seen, xs[..|xs| - 1]);
      if xs[|xs| - 1] in s then s else s + [xs[|xs| - 1]]
  }

  lemma {:induction false} DedupAppend(before: seq<int>, xs: seq<int>)
    ensures Dedup(before + xs) == AppendNew(Dedup(before), xs)
  {
    if xs == [] {
      assert before + xs == before;
    } else {
      var n := |xs| - 1;
      DedupAppend(before, xs[..n]);
      assert (before + xs)[..|before| + n] == before + xs[..n];
    }
  }

  /** Keys never increase along `s`. */
  predicate SortedDesc(s: seq<int>, key: int -> int)
  {
    forall i, j :: 0 <= i < j < |s| ==> key(s[i]) >= key(s[j])
  }

  /** Keys never increase along `s`, and equal keys are in increasing `tie` order. */
  predicate LexSorted(s: seq<int>, key: int -> int, tie: int -> int)
  {
    forall i, j :: 0 <= i < j < |s| ==> key(s[i]) > key(s[j]) || (key(s[i]) == key(s[j]) && tie(s[i]) < tie(s[j]))
  }

  /** `x` placed after every element whose key is at least its own: where a
      stable descending sort puts the latest of several equal keys. */
  function Insert(x: int, s: seq<int>, key: int -> int): (r: seq<int>)
    ensures multiset(r) == multiset(s) + multiset{x}
    ensures forall y :: y in r <==> y in s || y == x
  {
    if s == [] then [x]
    else if key(s[0]) >= key(x) then
      assert s == [s[0]] + s[1..];
      [s[0]] + Insert(x, s[1..], key)
    else [x] + s
  }

  lemma {:induction false} InsertSorted(x: int, s: seq<int>, key: int -> int)
    requires SortedDesc(s, key)
    ensures SortedDesc(Insert(x, s, key), key)
  {
    if s != [] && key(s[0]) >= key(x) {
      var t := s[1..];
      assert SortedDesc(t, key) by {
        forall i, j | 0 <= i < j < |t|
          ensures key(t[i]) >= key(t[j])
        {
          assert t[i] == s[i + 1] && t[j] == s[j + 1];
        }
      }
      InsertSorted(x, t, key);
      var u := Insert(x, t, key);
      forall y | y in u
        ensures key(s[0]) >= key(y)
      {
        if y != x {
          var k :| 0 <= k < |t| && t[k] == y;
          assert s[k + 1] == y;
        }
      }
      SortedCons(s[0], u, key);
    } else if s != [] {
      forall y | y in s
        ensures key(x) >= key(y)
      {
        var k :| 0 <= k < |s| && s[k] == y;
        assert k == 0 || key(s[0]) >= key(s[k]);
      }
      SortedCons(x, s, key);
    }
  }

  lemma SortedCons(h: int, u: seq<int>, key: int -> int)
    requires SortedDesc(u, key)
    requires forall y :: y in u ==> key(h) >= key(y)
    ensures SortedDesc([h] + u, key)
  {
    var r := [h] + u;
    forall i, j | 0 <= i < j < |r|
      ensures key(r[i]) >= key(r[j])
    {
      assert r[j] == u[j - 1];
      if i > 0 {
        assert r[i] == u[i - 1];
      }
    }
  }

  lemma {:induction false} InsertDistinct(x: int, s: seq<int>, key: int -> int)
    requires x !in s && Distinct(s)
    ensures Distinct(Insert(x, s, key))
  {
    if s != [] && key(s[0]) >= key(x) {
      var t := s[1..];
      InsertDistinct(x, t, key);
      var u := Insert(x, t, key);
      assert Insert(x, s, key) == [s[0]] + u;
      assert s[0] !in t;
      assert s[0] !in u;
    }
  }

  /** `sorted(xs, key=key, reverse=True)`. */
  function SortDesc(xs: seq<int>, key: int -> int): (r: seq<int>)
    ensures multiset(r) == multiset(xs)
    ensures forall y :: y in r <==> y in xs
    ensures SortedDesc(r, key)
    ensures Distinct(xs) ==> Distinct(r)
  {
    if xs == [] then []
    else
      var n := |xs| - 1;
      assert xs == xs[..n] + [xs[n]];
      var s := SortDesc(xs[..n], key);
      InsertSorted(xs[n], s, key);
      if Distinct(xs) then
        assert xs[n] !in xs[..n];
        InsertDistinct(xs[n], s, key);
        Insert(xs[n], s, key)
      else Insert(xs[n], s, key)
  }

  function Negate(x: int): int
  {
    -x
  }

  /** `sorted(xs)` of distinct integers: ascending order. */
  function SortAsc(xs: seq<int>): (r: seq<int>)
  {
    SortDesc(xs, Negate)
  }

  /** Sorting distinct integers ascending gives a strictly increasing sequence
      with the same elements. */
  lemma SortAscStrict(xs: seq<int>)
    requires Distinct(xs)
    ensures forall y :: y in SortAsc(xs) <==> y in xs
    ensures forall i, j :: 0 <= i < j < |SortAsc(xs)| ==> SortAsc(xs)[i] < SortAsc(xs)[j]
  {
    var r := SortAsc(xs);
    forall i, j | 0 <= i < j < |r|
      ensures r[i] < r[j]
    {
      assert Negate(r[i]) >= Negate(r[j]);
    }
  }

  /** Stability: when the input is ordered by `tie`, the sort breaks equal
      keys by `tie`. */
  lemma {:induction false} SortBreaksTies(xs: seq<int>, key: int -> int, tie: int -> int)
    requires forall i, j :: 0 <= i < j < |xs| ==> tie(xs[i]) < tie(xs[j])
    ensures LexSorted(SortDesc(xs, key), key, tie)
  {
    if xs != [] {
      var n := |xs| - 1;
      var p := xs[..n];
      assert forall i, j :: 0 <= i < j < |p| ==> tie(p[i]) < tie(p[j]) by {
        forall i, j | 0 <= i < j < |p|
          ensures tie(p[i]) < tie(p[j])
        {
          assert p[i] == xs[i] && p[j] == xs[j];
        }
      }
      SortBreaksTies(p, key, tie);
      var s := SortDesc(p, key);
      forall y | y in s
        ensures tie(y) < tie(xs[n])
      {
        assert y in p;
        var k :| 0 <= k < n && p[k] == y;
        assert xs[k] == y;
      }
      InsertBreaksTies(xs[n], s, key, tie);
    }
  }

  lemma {:induction false} InsertBreaksTies(x: int, s: seq<int>, key: int -> int, tie: int -> int)
    requires LexSorted(s, key, tie)
    requires forall y :: y in s ==> tie(y) < tie(x)
    ensures LexSorted(Insert(x, s, key), key, tie)
  {
    if s == [] {
    } else if key(s[0]) >= key(x) {
      var t := s[1..];
      assert LexSorted(t, key, tie) by {
        forall i, j | 0 <= i < j < |t|
          ensures key(t[i]) > key(t[j]) || (key(t[i]) == key(t[j]) && tie(t[i]) < tie(t[j]))
        {
          assert t[i] == s[i + 1] && t[j] == s[j + 1];
        }
      }
      InsertBreaksTies(x, t, key, tie);
      var u := Insert(x, t, key);
      forall y | y in u
        ensures key(s[0]) > key(y) || (key(s[0]) == key(y) && tie(s[0]) < tie(y))
      {
        if y != x {
          var k :| 0 <= k < |t| && t[k] == y;
          assert s[k + 1] == y;
        }
      }
      LexSortedCons(s[0], u, key, tie);
    } else {
      forall y | y in s
        ensures key(x) > key(y)
      {
        var k :| 0 <= k < |s| && s[k] == y;
        assert k == 0 || key(s[0]) >= key(s[k]);
      }
      LexSortedCons(x, s, key, tie);
    }
  }

  lemma LexSortedCons(h: int, u: seq<int>, key: int -> int, tie: int -> int)
    requires LexSorted(u, key, tie)
    requires forall y :: y in u ==> key(h) > key(y) || (key(h) == key(y) && tie(h) < tie(y))
    ensures LexSorted([h] + u, key, tie)
  {
    var r := [h] + u;
    forall i, j | 0 <= i < j < |r|
      ensures key(r[i]) > key(r[j]) || (key(r[i]) == key(r[j]) && tie(r[i]) < tie(r[j]))
    {
      assert r[j] == u[j - 1];
      if i > 0 {
        assert r[i] == u[i - 1];
      }
    }
  }

  /** Position of `x` in `s`, or `|s|` when absent. */
  function IndexOf(s: seq<int>, x: int): (k: nat)
    ensures k <= |s|
    ensures k < |s| <==> x in s
    ensures k < |s| ==> s[k] == x && forall i :: 0 <= i < k ==> s[i] != x
  {
    if s == [] then 0
    else if s[0] == x then 0
    else 1 + IndexOf(s[1..], x)
  }

  /** In a sequence without repeats, the position of each element is its index. */
  lemma IndexOfDistinct(s: seq<int>, i: int)
    requires Distinct(s) && 0 <= i < |s|
    ensures IndexOf(s, s[i]) == i
  {
  }

  /** Dedup keeps the order of first appearance: of two kept elements, the
      earlier is the one that first appears earlier in the input, as the key
      order of a dict filled from `xs` does. */
  lemma {:induction false} DedupFirstAppearance(xs: seq<int>)
    ensures forall i, j :: 0 <= i < j < |Dedup(xs)| ==> IndexOf(xs, Dedup(xs)[i]) < IndexOf(xs, Dedup(xs)[j])
  {
    if xs != [] {
      var n := |xs| - 1;
      var p, x := xs[..n], xs[n];
      assert xs == p + [x];
      DedupFirstAppearance(p);
      var d := Dedup(p);
      forall y | y in p
        ensures IndexOf(xs, y) == IndexOf(p, y) < |p|
      {
        IndexOfAppendKept(p, x, y);
      }
      if x !in d {
        IndexOfAppendNew(p, x);
        var r := d + [x];
        forall i, j | 0 <= i < j < |r|
          ensures IndexOf(xs, r[i]) < IndexOf(xs, r[j])
        {
          assert r[i] == d[i] && r[i] in p;
          if j < |d| {
            assert r[j] == d[j] && r[j] in p;
          }
        }
      } else {
        forall i, j | 0 <= i < j < |d|
          ensures IndexOf(xs, d[i]) < IndexOf(xs, d[j])
        {
          assert d[i] in p && d[j] in p;
        }
      }
    }
  }

  /** Appending an element leaves the position of an earlier one. */
  lemma {:induction false} IndexOfAppendKept(p: seq<int>, x: int, y: int)
    requires y in p
    ensures IndexOf(p + [x], y) == IndexOf(p, y)
  {
    if p[0] != y {
      assert (p + [x])[1..] == p[1..] + [x];
      IndexOfAppendKept(p[1..], x, y);
    }
  }

  /** An element new to `p` sits at position `|p|` of `p + [x]`. */
  lemma {:induction false} IndexOfAppendNew(p: seq<int>, x: int)
    requires x !in p
    ensures IndexOf(p + [x], x) == |p|
  {
    if p != [] {
      assert (p + [x])[1..] == p[1..] + [x];
      IndexOfAppendNew(p[1..], x);
    }
  }
}
