/** Python's `sorted` on lists of strings: the code-point lexicographic order,
    and the one sequence that is sorted and a permutation of its input. */
module Sorting {

  /** Python `a <= b` on strings. */
  predicate LessEq(a: string, b: string)
  {
    if a == [] then true
    else if b == [] then false
    else if a[0] != b[0] then a[0] < b[0]
    else LessEq(a[1..], b[1..])
  }

  lemma {:induction false} LessEqTotal(a: string, b: string)
    ensures LessEq(a, b) || LessEq(b, a)
  {
    if a != [] && b != [] && a[0] == b[0] {
      LessEqTotal(a[1..], b[1..]);
    }
  }

  lemma {:induction false} LessEqAntisymmetric(a: string, b: string)
    requires LessEq(a, b) && LessEq(b, a)
    ensures a == b
  {
    if a != [] && b != [] {
      LessEqAntisymmetric(a[1..], b[1..]);
      assert a == [a[0]] + a[1..] && b == [b[0]] + b[1..];
    }
  }

  lemma {:induction false} LessEqTransitive(a: string, b: string, c: string)
    requires LessEq(a, b) && LessEq(b, c)
    ensures LessEq(a, c)
  {
    if a != [] && b != [] && c != [] && a[0] == b[0] && b[0] == c[0] {
      LessEqTransitive(a[1..], b[1..], c[1..]);
    }
  }

  predicate Sorted(s: seq<string>)
  {
    forall i, j :: 0 <= i < j < |s| ==> LessEq(s[i], s[j])
  }

  function Insert(x: string, s: seq<string>): (r: seq<string>)
    ensures multiset(r) == multiset(s) + multiset{x}
  {
    if s == [] then [x]
    else if LessEq(x, s[0]) then [x] + s
    else
      assert s == [s[0]] + s[1..];
      [s[0]] + Insert(x, s[1..])
  }

  lemma {:induction false} InsertSorted(x: string, s: seq<string>)
    requires Sorted(s)
    ensures Sorted(Insert(x, s))
  {
    if s == [] {
    } else if LessEq(x, s[0]) {
      forall j | 0 < j < |s| ensures LessEq(x, s[j]) { LessEqTransitive(x, s[0], s[j]); }
    } else {
      LessEqTotal(x, s[0]);
      var t := Insert(x, s[1..]);
      InsertSorted(x, s[1..]);
      forall k | 0 <= k < |t| ensures LessEq(s[0], t[k]) {
        assert t[k] in multiset(t);
        if t[k] != x {
          assert t[k] in multiset(s[1..]);
          var m :| 0 <= m < |s[1..]| && s[1..][m] == t[k];
          assert s[m + 1] == t[k];
        }
      }
      ConsSorted(s[0], t);
    }
  }

  /** A sorted sequence stays sorted behind a string no greater than any of it. */
  lemma {:induction false} ConsSorted(a: string, t: seq<string>)
    requires Sorted(t) && forall k :: 0 <= k < |t| ==> LessEq(a, t[k])
    ensures Sorted([a] + t)
  {
    var r := [a] + t;
    forall i, j | 0 <= i < j < |r| ensures LessEq(r[i], r[j]) {
      if i == 0 { assert r[j] == t[j - 1]; } else { assert r[i] == t[i - 1] && r[j] == t[j - 1]; }
    }
  }

  /** Python `sorted(s)`. */
  function Sort(s: seq<string>): (r: seq<string>)
    ensures Sorted(r) && multiset(r) == multiset(s)
  {
    if s == [] then []
    else
      assert s == s[..|s| - 1] + [s[|s| - 1]];
      var init := Sort(s[..|s| - 1]);
      InsertSorted(s[|s| - 1], init);
      Insert(s[|s| - 1], init)
  }

  lemma {:induction false} LessEqReflexive(a: string)
    ensures LessEq(a, a)
  {
    if a != [] {
      LessEqReflexive(a[1..]);
    }
  }

  /** Two sorted permutations of the same strings are equal, so `Sort` is
      exactly what `sorted` returns. */
  lemma {:induction false} SortedUnique(a: seq<string>, b: seq<string>)
    requires Sorted(a) && Sorted(b) && multiset(a) == multiset(b)
    ensures a == b
    decreases |a|
  {
    if a == [] {
      assert |b| == |multiset(b)|;
    } else {
      assert b != [] by { assert |b| == |multiset(b)|; }
      SortedHeads(a, b);
      SortedTail(a);
      SortedTail(b);
      TailMultiset(a, b);
      SortedUnique(a[1..], b[1..]);
      assert a == [a[0]] + a[1..];
      assert b == [b[0]] + b[1..];
    }
  }

  lemma {:induction false} SortedTail(a: seq<string>)
    requires Sorted(a) && a != []
    ensures Sorted(a[1..])
  {
    var t := a[1..];
    forall i, j | 0 <= i < j < |t| ensures LessEq(t[i], t[j]) { assert t[i] == a[i + 1] && t[j] == a[j + 1]; }
  }

  lemma {:induction false} TailMultiset(a: seq<string>, b: seq<string>)
    requires a != [] && b != [] && a[0] == b[0] && multiset(a) == multiset(b)
    ensures multiset(a[1..]) == multiset(b[1..])
  {
    assert a == [a[0]] + a[1..];
    assert b == [b[0]] + b[1..];
    assert multiset(a) == multiset{a[0]} + multiset(a[1..]);
    assert multiset(b) == multiset{b[0]} + multiset(b[1..]);
    forall x ensures multiset(a[1..])[x] == multiset(b[1..])[x] {
      assert multiset(a)[x] == multiset{a[0]}[x] + multiset(a[1..])[x];
      assert multiset(b)[x] == multiset{b[0]}[x] + multiset(b[1..])[x];
    }
  }

  /** Both sorted permutations start with the same least string. */
  lemma {:induction false} SortedHeads(a: seq<string>, b: seq<string>)
    requires Sorted(a) && Sorted(b) && multiset(a) == multiset(b) && a != [] && b != []
    ensures a[0] == b[0]
  {
    assert a[0] in multiset(b);
    assert b[0] in multiset(a);
    var i :| 0 <= i < |b| && b[i] == a[0];
    var j :| 0 <= j < |a| && a[j] == b[0];
    LessEqReflexive(a[0]);
    assert LessEq(b[0], a[0]) by { if i > 0 { assert LessEq(b[0], b[i]); } }
    assert LessEq(a[0], b[0]) by { if j > 0 { assert LessEq(a[0], a[j]); } }
    LessEqAntisymmetric(a[0], b[0]);
  }

  /** The elements of `s` without repetition, first occurrences kept. */
  function Dedup(s: seq<string>): (r: seq<string>)
    ensures forall x :: x in r <==> x in s
    ensures forall i, j :: 0 <= i < j < |r| ==> r[i] != r[j]
  {
    if s == [] then []
    else
      var init := s[..|s| - 1];
      var y := s[|s| - 1];
      var r := Dedup(init);
      assert s == init + [y];
      if y in r then r else r + [y]
  }

  /** Python `sorted(set(s))`: strictly increasing, and holding exactly the
      strings of `s`. */
  function SortedSet(s: seq<string>): (r: seq<string>)
    ensures Sorted(r) && forall x :: x in r <==> x in s
    ensures forall i, j :: 0 <= i < j < |r| ==> r[i] != r[j]
  {
    var d := Dedup(s);
    var r := Sort(d);
    assert forall x :: x in r <==> x in multiset(r);
    assert forall x :: x in d <==> x in multiset(d);
    assert forall x :: multiset(r)[x] == multiset(d)[x];
    DistinctCount(d);
    forall i, j | 0 <= i < j < |r| ensures r[i] != r[j] {
      if r[i] == r[j] {
        TwiceCount(r, i, j);
      }
    }
    r
  }

  lemma {:induction false} DistinctCount(d: seq<string>)
    requires forall i, j :: 0 <= i < j < |d| ==> d[i] != d[j]
    ensures forall x :: multiset(d)[x] <= 1
  {
    if d != [] {
      var init := d[..|d| - 1];
      DistinctCount(init);
      assert d == init + [d[|d| - 1]];
      assert d[|d| - 1] !in init;
    }
  }

  lemma {:induction false} TwiceCount(r: seq<string>, i: nat, j: nat)
    requires i < j < |r| && r[i] == r[j]
    ensures multiset(r)[r[i]] >= 2
  {
    assert r == r[..i] + [r[i]] + r[i + 1..j] + [r[j]] + r[j + 1..];
  }
}
