/** Finite-collection helpers the repository queries are built from: least and
    greatest elements of finite sets, the ascending enumeration of a set of ids,
    and a stable insertion sort on lexicographically compared integer keys.
 */
module Finite {
  import opened Outcomes

  // ---------------------------------------------------------------------------
  // Least and greatest elements
  // ---------------------------------------------------------------------------

  /** `m` is a least element of `s`. */
  predicate IsLeast(m: nat, s: set<nat>) {
    m in s && forall x :: x in s ==> m <= x
  }

  /** `m` is a greatest element of `s`. */
  predicate IsGreatest(m: int, s: set<int>) {
    m in s && forall x :: x in s ==> x <= m
  }

  lemma {:induction false} LeastExists(s: set<nat>)
    requires s != {}
    ensures exists m :: IsLeast(m, s)
    decreases |s|
  {
    var y :| y in s;
    var rest := s - {y};
    assert forall x :: x in s ==> x == y || x in rest;
    if rest == {} {
      assert IsLeast(y, s);
    } else {
      LeastExists(rest);
      var m :| IsLeast(m, rest);
      if y < m {
        assert IsLeast(y, s);
      } else {
        assert IsLeast(m, s);
      }
    }
  }

  lemma {:induction false} GreatestExists(s: set<int>)
    requires s != {}
    ensures exists m :: IsGreatest(m, s)
    decreases |s|
  {
    var y: int;
    if forall x: int :: x !in s {
      assert false;  // s is non-empty
    } else {
      y :| y in s;
    }
    var rest := s - {y};
    assert forall x :: x in s ==> x == y || x in rest;
    if rest == {} {
      assert IsGreatest(y, s);
    } else {
      GreatestExists(rest);
      var m :| IsGreatest(m, rest);
      if m < y {
        assert IsGreatest(y, s);
      } else {
        assert IsGreatest(m, s);
      }
    }
  }

  /** The least element of a non-empty set of ids. */
  function MinOf(s: set<nat>): (m: nat)
    requires s != {}
    ensures m in s
    ensures forall x :: x in s ==> m <= x
  {
    LeastExists(s);
    var m :| IsLeast(m, s);
    m
  }

  /** The greatest element of a non-empty set of integers. */
  function MaxOf(s: set<int>): (m: int)
    requires s != {}
    ensures m in s
    ensures forall x :: x in s ==> x <= m
  {
    GreatestExists(s);
    var m :| IsGreatest(m, s);
    m
  }

  /** The least id of a set, or none for the empty set: how an `Optional` finder
      is modelled when the store could hold several matching rows. */
  function Least(s: set<nat>): (r: Option<nat>)
    ensures r.None? <==> s == {}
    ensures r.Some? ==> r.value in s && forall x :: x in s ==> r.value <= x
  {
    if s == {} then None else Some(MinOf(s))
  }

  /** Whenever a set has exactly one element, `Least` finds it. */
  lemma LeastOfSingleton(s: set<nat>, x: nat)
    requires x in s
    requires forall y :: y in s ==> y == x
    ensures Least(s) == Some(x)
  {
  }

  // ---------------------------------------------------------------------------
  // Ascending enumeration of a set of ids
  // ---------------------------------------------------------------------------

  /** The elements of `s` in strictly ascending order. */
  function SortedSet(s: set<nat>): (r: seq<nat>)
    ensures |r| == |s|
    ensures forall x :: x in s <==> x in r
    ensures forall i, j :: 0 <= i < j < |r| ==> r[i] < r[j]
    decreases |s|
  {
    if s == {} then []
    else
      var m := MinOf(s);
      [m] + SortedSet(s - {m})
  }

  /** A strictly ascending sequence has no repeated element. */
  lemma AscendingIsDistinct(r: seq<nat>)
    requires forall i, j :: 0 <= i < j < |r| ==> r[i] < r[j]
    ensures forall i, j :: 0 <= i < |r| && 0 <= j < |r| && i != j ==> r[i] != r[j]
  {
  }

  // ---------------------------------------------------------------------------
  // Lexicographic order on integer sequences
  // ---------------------------------------------------------------------------

  /** `a` is lexicographically at most `b`: a proper prefix comes first, else the
      first differing position decides. This is the order of Java's string
      comparison once characters are read as integers. */
  predicate LexLeq(a: seq<int>, b: seq<int>)
    decreases |a|
  {
    |a| == 0 || (|b| > 0 && (a[0] < b[0] || (a[0] == b[0] && LexLeq(a[1..], b[1..]))))
  }

  /** `a` comes strictly before `b`. */
  predicate LexLess(a: seq<int>, b: seq<int>) {
    !LexLeq(b, a)
  }

  lemma {:induction false} LexLeqReflexive(a: seq<int>)
    ensures LexLeq(a, a)
    decreases |a|
  {
    if |a| > 0 {
      LexLeqReflexive(a[1..]);
    }
  }

  lemma {:induction false} LexLeqTotal(a: seq<int>, b: seq<int>)
    ensures LexLeq(a, b) || LexLeq(b, a)
    decreases |a|
  {
    if |a| > 0 && |b| > 0 && a[0] == b[0] {
      LexLeqTotal(a[1..], b[1..]);
    }
  }

  lemma {:induction false} LexLeqTransitive(a: seq<int>, b: seq<int>, c: seq<int>)
    requires LexLeq(a, b) && LexLeq(b, c)
    ensures LexLeq(a, c)
    decreases |a|
  {
    if |a| > 0 && a[0] == b[0] && b[0] == c[0] {
      LexLeqTransitive(a[1..], b[1..], c[1..]);
    }
  }

  lemma {:induction false} LexLeqAntisymmetric(a: seq<int>, b: seq<int>)
    requires LexLeq(a, b) && LexLeq(b, a)
    ensures a == b
    decreases |a|
  {
    if |a| > 0 {
      LexLeqAntisymmetric(a[1..], b[1..]);
      assert a == [a[0]] + a[1..];
      assert b == [b[0]] + b[1..];
    }
  }

  /** Single-integer keys compare as the integers do. */
  lemma LexLeqSingleton(x: int, y: int)
    ensures LexLeq([x], [y]) <==> x <= y
  {
    assert [x][1..] == [];
  }

  // ---------------------------------------------------------------------------
  // Stable insertion sort by key
  // ---------------------------------------------------------------------------

  /** `xs` is ordered by ascending `key`. */
  ghost predicate SortedBy<T>(xs: seq<T>, key: T -> seq<int>) {
    forall i, j :: 0 <= i < j < |xs| ==> LexLeq(key(xs[i]), key(xs[j]))
  }

  /** Inserts `x` after every element whose key is at most its own. */
  function InsertBy<T>(x: T, xs: seq<T>, key: T -> seq<int>): seq<T>
  {
    if xs == [] then [x]
    else if LexLess(key(x), key(xs[0])) then [x] + xs
    else [xs[0]] + InsertBy(x, xs[1..], key)
  }

  /** Stable sort of `xs` by ascending `key`: the order of Java's `sorted` with a
      comparator, and of an SQL `ORDER BY` whose ties fall in scan order. */
  function SortBy<T>(xs: seq<T>, key: T -> seq<int>): seq<T>
    decreases |xs|
  {
    if xs == [] then []
    else InsertBy(xs[|xs| - 1], SortBy(xs[..|xs| - 1], key), key)
  }

  lemma {:induction false} InsertByPermutes<T>(x: T, xs: seq<T>, key: T -> seq<int>)
    ensures multiset(InsertBy(x, xs, key)) == multiset(xs) + multiset{x}
    decreases |xs|
  {
    if xs != [] && !LexLess(key(x), key(xs[0])) {
      InsertByPermutes(x, xs[1..], key);
      assert xs == [xs[0]] + xs[1..];
    }
  }

  lemma {:induction false} InsertBySorted<T>(x: T, xs: seq<T>, key: T -> seq<int>)
    requires SortedBy(xs, key)
    ensures SortedBy(InsertBy(x, xs, key), key)
    decreases |xs|
  {
    var r := InsertBy(x, xs, key);
    if xs == [] {
    } else if LexLess(key(x), key(xs[0])) {
      LexLeqTotal(key(x), key(xs[0]));
      forall i, j | 0 <= i < j < |r|
        ensures LexLeq(key(r[i]), key(r[j]))
      {
        if i == 0 {
          if j == 1 {
          } else {
            LexLeqTransitive(key(x), key(xs[0]), key(xs[j - 1]));
          }
        }
      }
    } else {
      var rest := InsertBy(x, xs[1..], key);
      assert SortedBy(xs[1..], key);
      InsertBySorted(x, xs[1..], key);
      InsertByPermutes(x, xs[1..], key);
      LexLeqTotal(key(x), key(xs[0]));
      forall i, j | 0 <= i < j < |r|
        ensures LexLeq(key(r[i]), key(r[j]))
      {
        if i == 0 {
          var y := r[j];
          assert y == rest[j - 1];
          assert y in multiset(rest);
          if y != x {
            assert y in multiset(xs[1..]);
            var k :| 0 <= k < |xs[1..]| && xs[1..][k] == y;
            assert xs[k + 1] == y;
          }
        } else {
          assert r[i] == rest[i - 1] && r[j] == rest[j - 1];
        }
      }
    }
  }

  /** Sorting keeps every element exactly as often as before. */
  lemma {:induction false} SortByPermutes<T>(xs: seq<T>, key: T -> seq<int>)
    ensures multiset(SortBy(xs, key)) == multiset(xs)
    decreases |xs|
  {
    if xs != [] {
      var init := xs[..|xs| - 1];
      SortByPermutes(init, key);
      InsertByPermutes(xs[|xs| - 1], SortBy(init, key), key);
      assert xs == init + [xs[|xs| - 1]];
    }
  }

  /** Sorting orders the elements by ascending key. */
  lemma {:induction false} SortBySorted<T>(xs: seq<T>, key: T -> seq<int>)
    ensures SortedBy(SortBy(xs, key), key)
    decreases |xs|
  {
    if xs != [] {
      SortBySorted(xs[..|xs| - 1], key);
      InsertBySorted(xs[|xs| - 1], SortBy(xs[..|xs| - 1], key), key);
    }
  }

  /** Sorting neither loses nor invents elements. */
  lemma SortBySameElements<T>(xs: seq<T>, key: T -> seq<int>)
    ensures |SortBy(xs, key)| == |xs|
    ensures forall x :: x in SortBy(xs, key) <==> x in xs
  {
    SortByPermutes(xs, key);
    var r := SortBy(xs, key);
    assert |multiset(r)| == |multiset(xs)|;
    forall x
      ensures x in r <==> x in xs
    {
      assert x in r <==> x in multiset(r);
      assert x in xs <==> x in multiset(xs);
    }
  }
}

/** Order-preserving filters and counts over sequences. */
module Seqs {

  /** The elements of `xs` satisfying `p`, in their original order. */
  function Filter<T>(xs: seq<T>, p: T -> bool): (r: seq<T>)
    ensures |r| <= |xs|
    ensures forall i :: 0 <= i < |r| ==> r[i] in xs && p(r[i])
    ensures forall i :: 0 <= i < |xs| && p(xs[i]) ==> xs[i] in r
    decreases |xs|
  {
    if xs == [] then []
    else if p(xs[0]) then [xs[0]] + Filter(xs[1..], p)
    else Filter(xs[1..], p)
  }

  /** `xs` is in ascending order of the integer key `f`. */
  predicate AscendingBy<T>(xs: seq<T>, f: T -> int) {
    forall i, j :: 0 <= i < j < |xs| ==> f(xs[i]) <= f(xs[j])
  }

  /** Filtering keeps an ascending order by any integer key. */
  lemma {:induction false} FilterKeepsOrder<T>(xs: seq<T>, p: T -> bool, f: T -> int)
    requires AscendingBy(xs, f)
    ensures AscendingBy(Filter(xs, p), f)
    decreases |xs|
  {
    if xs != [] {
      var tail := xs[1..];
      assert AscendingBy(tail, f);
      FilterKeepsOrder(tail, p, f);
    }
  }

  /** The number of elements of `xs` satisfying `p`. */
  function CountIf<T>(xs: seq<T>, p: T -> bool): nat
    decreases |xs|
  {
    if xs == [] then 0
    else (if p(xs[0]) then 1 else 0) + CountIf(xs[1..], p)
  }
}
