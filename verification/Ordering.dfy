/** Sorting by a total order: the result depends only on which elements there are, not on their order. */
module Ordering {

  ghost predicate TotalOrder<T(!new)>(le: (T, T) -> bool) {
    && (forall x :: le(x, x))
    && (forall x, y :: le(x, y) || le(y, x))
    && (forall x, y :: le(x, y) && le(y, x) ==> x == y)
    && (forall x, y, z :: le(x, y) && le(y, z) ==> le(x, z))
  }

  predicate Sorted<T>(s: seq<T>, le: (T, T) -> bool) {
    forall i, j | 0 <= i < j < |s| :: le(s[i], s[j])
  }

  predicate Distinct<T(==)>(s: seq<T>) {
    forall i, j | 0 <= i < j < |s| :: s[i] != s[j]
  }

  function Elements<T>(s: seq<T>): set<T> {
    set x | x in s
  }

  lemma ElementsSnoc<T>(s: seq<T>, i: nat)
    requires i < |s|
    ensures Elements(s[..i + 1]) == Elements(s[..i]) + {s[i]}
  {
    assert s[..i + 1] == s[..i] + [s[i]];
  }

  /** Where `x` is in the sequence. */
  function IndexIn<T(==)>(s: seq<T>, x: T): (i: nat)
    requires x in s
    ensures i < |s| && s[i] == x
  {
    if s[0] == x then 0 else 1 + IndexIn(s[1..], x)
  }

  function Insert<T>(x: T, s: seq<T>, le: (T, T) -> bool): (r: seq<T>)
    ensures multiset(r) == multiset{x} + multiset(s)
  {
    if |s| == 0 || le(x, s[0]) then [x] + s
    else
      assert s == [s[0]] + s[1..];
      [s[0]] + Insert(x, s[1..], le)
  }

  function Sort<T>(s: seq<T>, le: (T, T) -> bool): (r: seq<T>)
    ensures multiset(r) == multiset(s)
  {
    if |s| == 0 then []
    else
      assert s == s[..|s| - 1] + [s[|s| - 1]];
      Insert(s[|s| - 1], Sort(s[..|s| - 1], le), le)
  }

  lemma {:induction false} InsertSorts<T(!new)>(x: T, s: seq<T>, le: (T, T) -> bool)
    requires TotalOrder(le) && Sorted(s, le)
    ensures Sorted(Insert(x, s, le), le)
  {
    if |s| > 0 && !le(x, s[0]) {
      InsertSorts(x, s[1..], le);
      var rest := Insert(x, s[1..], le);
      forall j | 0 <= j < |rest|
        ensures le(s[0], rest[j])
      {
        assert rest[j] in multiset(rest);
        assert rest[j] == x || rest[j] in s[1..];
      }
    }
  }

  lemma {:induction false} SortSorts<T(!new)>(s: seq<T>, le: (T, T) -> bool)
    requires TotalOrder(le)
    ensures Sorted(Sort(s, le), le)
  {
    if |s| > 0 {
      SortSorts(s[..|s| - 1], le);
      InsertSorts(s[|s| - 1], Sort(s[..|s| - 1], le), le);
    }
  }

  /** There is only one sorted sequence of given elements. */
  lemma {:induction false} SortedUnique<T(!new)>(a: seq<T>, b: seq<T>, le: (T, T) -> bool)
    requires TotalOrder(le) && Sorted(a, le) && Sorted(b, le) && multiset(a) == multiset(b)
    ensures a == b
  {
    hide TotalOrder, Sorted;
    assert |a| == |multiset(a)| == |multiset(b)| == |b|;
    if |a| > 0 {
      HeadsAgree(a, b, le);
      TailOf(a, le);
      TailOf(b, le);
      SortedUnique(a[1..], b[1..], le);
    }
  }

  lemma TailOf<T(!new)>(a: seq<T>, le: (T, T) -> bool)
    requires |a| > 0 && Sorted(a, le)
    ensures a == [a[0]] + a[1..] && multiset(a[1..]) == multiset(a) - multiset{a[0]} && Sorted(a[1..], le)
  {
    assert a == [a[0]] + a[1..];
  }

  lemma HeadsAgree<T(!new)>(a: seq<T>, b: seq<T>, le: (T, T) -> bool)
    requires TotalOrder(le) && Sorted(a, le) && Sorted(b, le) && multiset(a) == multiset(b) && |a| > 0 && |b| > 0
    ensures a[0] == b[0]
  {
    assert a[0] in multiset(b) && b[0] in multiset(a);
    var i :| 0 <= i < |b| && b[i] == a[0];
    var j :| 0 <= j < |a| && a[j] == b[0];
    assert le(a[0], a[j]) && le(b[0], b[i]);
  }

  lemma SortIgnoresOrder<T(!new)>(a: seq<T>, b: seq<T>, le: (T, T) -> bool)
    requires TotalOrder(le) && multiset(a) == multiset(b)
    ensures Sort(a, le) == Sort(b, le)
  {
    hide Sort, TotalOrder, Sorted;
    SortSorts(a, le);
    SortSorts(b, le);
    SortedUnique(Sort(a, le), Sort(b, le), le);
  }

  lemma SortMembers<T(!new)>(s: seq<T>, le: (T, T) -> bool)
    ensures |Sort(s, le)| == |s|
    ensures forall x :: x in Sort(s, le) <==> x in s
  {
    hide Sort;
    assert |multiset(s)| == |s| && |multiset(Sort(s, le))| == |Sort(s, le)|;
    assert forall x :: x in s <==> x in multiset(s);
    assert forall x :: x in Sort(s, le) <==> x in multiset(Sort(s, le));
  }

  lemma DistinctMultiset<T(!new)>(a: seq<T>, b: seq<T>)
    requires multiset(a) == multiset(b) && Distinct(a)
    ensures Distinct(b)
  {
    forall i, j | 0 <= i < j < |b|
      ensures b[i] != b[j]
    {
      TwiceThere(b, i, j);
      AtMostOnce(a, b[i]);
    }
  }

  lemma {:induction false} AtMostOnce<T(!new)>(a: seq<T>, x: T)
    requires Distinct(a)
    ensures multiset(a)[x] <= 1
  {
    if |a| > 0 {
      assert a == [a[0]] + a[1..];
      AtMostOnce(a[1..], x);
      if a[0] == x {
        assert x !in a[1..];
      }
    }
  }

  /** The elements of a set in order. */
  ghost function SortedElements<T(!new)>(s: set<T>, le: (T, T) -> bool): (r: seq<T>)
    ensures multiset(r) == multiset(s)
  {
    if s == {} then []
    else
      var x :| x in s;
      assert multiset(s) == multiset{x} + multiset(s - {x});
      Insert(x, SortedElements(s - {x}, le), le)
  }

  lemma {:induction false} SortedElementsSorted<T(!new)>(s: set<T>, le: (T, T) -> bool)
    requires TotalOrder(le)
    ensures Sorted(SortedElements(s, le), le)
  {
    assert Sorted([], le);
    hide TotalOrder, Sorted, Insert;
    if s != {} {
      var x :| x in s && SortedElements(s, le) == Insert(x, SortedElements(s - {x}, le), le);
      SortedElementsSorted(s - {x}, le);
      InsertSorts(x, SortedElements(s - {x}, le), le);
    }
  }

  /** In whatever order the elements are collected, sorting them gives the same sequence. */
  lemma SortedElementsUnique<T(!new)>(s: set<T>, r: seq<T>, le: (T, T) -> bool)
    requires TotalOrder(le) && Sorted(r, le) && multiset(r) == multiset(s)
    ensures r == SortedElements(s, le)
  {
    hide TotalOrder, Sorted, SortedElements;
    SortedElementsSorted(s, le);
    SortedUnique(r, SortedElements(s, le), le);
  }

  lemma SortedElementsHold<T(!new)>(s: set<T>, le: (T, T) -> bool)
    ensures |SortedElements(s, le)| == |s| && Distinct(SortedElements(s, le))
    ensures forall x :: x in SortedElements(s, le) <==> x in s
  {
    hide SortedElements;
    var r := SortedElements(s, le);
    assert |multiset(r)| == |r| && |multiset(s)| == |s|;
    assert forall x :: x in r <==> x in multiset(r);
    OfSetDistinct(s, r);
  }

  lemma OfSetDistinct<T(!new)>(s: set<T>, r: seq<T>)
    requires multiset(r) == multiset(s)
    ensures Distinct(r)
  {
    forall i, j | 0 <= i < j < |r|
      ensures r[i] != r[j]
    {
      TwiceThere(r, i, j);
      assert multiset(s)[r[i]] <= 1;
    }
  }

  lemma TwiceThere<T(!new)>(r: seq<T>, i: nat, j: nat)
    requires i < j < |r|
    ensures r[i] == r[j] ==> multiset(r)[r[i]] >= 2
  {
    assert r == r[..i] + [r[i]] + r[i + 1..j] + [r[j]] + r[j + 1..];
  }

  /** A sequence that holds each element of a set once. */
  lemma DistinctElements<T(!new)>(ids: seq<T>, s: set<T>)
    requires Distinct(ids) && forall id :: id in ids <==> id in s
    ensures multiset(ids) == multiset(s)
  {
    forall id: T
      ensures multiset(ids)[id] == multiset(s)[id]
    {
      AtMostOnce(ids, id);
      assert id in ids <==> id in multiset(ids);
    }
  }

  // --- Places ------------------------------------------------------------------------------------

  /** How many elements of the set come before `x`. */
  ghost function Rank<T(!new)>(s: set<T>, le: (T, T) -> bool, x: T): nat {
    |set y | y in s && y != x && le(y, x)|
  }

  lemma RankCounts<T(!new)>(s: set<T>, le: (T, T) -> bool, x: T, before: set<T>)
    requires forall y :: y in before <==> y in s && y != x && le(y, x)
    ensures Rank(s, le, x) == |before|
  {
    assert before == set y | y in s && y != x && le(y, x);
  }

  lemma {:induction false} DistinctCount<T(!new)>(r: seq<T>)
    requires Distinct(r)
    ensures |Elements(r)| == |r|
  {
    if |r| > 0 {
      var n := |r| - 1;
      DistinctCount(r[..n]);
      ElementsSnoc(r, n);
      assert r[..n + 1] == r;
      assert r[n] !in Elements(r[..n]);
    }
  }

  /** The place of an element in the sorted sequence is the number of elements before it. */
  lemma PlaceIsRank<T(!new)>(s: set<T>, le: (T, T) -> bool, x: T)
    requires TotalOrder(le) && x in s
    ensures x in SortedElements(s, le) && IndexIn(SortedElements(s, le), x) == Rank(s, le, x)
    ensures Rank(s, le, x) < |s| == |SortedElements(s, le)|
  {
    hide SortedElements;
    var r := SortedElements(s, le);
    SortedElementsHold(s, le);
    SortedElementsSorted(s, le);
    var i := IndexIn(r, x);
    forall y
      ensures y in Elements(r[..i]) <==> y in s && y != x && le(y, x)
    {
      if y in r {
        var j :| 0 <= j < |r| && r[j] == y;
        if j < i {
          assert r[..i][j] == y && le(r[j], r[i]);
        } else if j > i {
          assert le(r[i], r[j]);
        }
      }
    }
    assert Elements(r[..i]) == set y | y in s && y != x && le(y, x);
    DistinctCount(r[..i]);
  }

  // --- Strings -----------------------------------------------------------------------------------

  /** The order of Go's string comparison, element by element. */
  predicate StringLe(a: string, b: string) {
    |a| == 0 || (|b| > 0 && (a[0] < b[0] || (a[0] == b[0] && StringLe(a[1..], b[1..]))))
  }

  /** What two strings share at the front does not decide their order. */
  lemma {:induction false} StringLeAfter(a: string, b: string, i: nat)
    requires i <= |a| && i <= |b| && a[..i] == b[..i]
    ensures StringLe(a, b) <==> StringLe(a[i..], b[i..])
  {
    if i == 0 {
      assert a[0..] == a && b[0..] == b;
    } else {
      assert a[0] == a[..i][0] == b[..i][0] == b[0];
      assert a[1..][..i - 1] == a[..i][1..] && b[1..][..i - 1] == b[..i][1..];
      StringLeAfter(a[1..], b[1..], i - 1);
      assert a[1..][i - 1..] == a[i..] && b[1..][i - 1..] == b[i..];
    }
  }

  /** A string is before those that it begins, and otherwise the smaller one where they first differ is. */
  lemma StringLeMeans(a: string, b: string, i: nat)
    requires i <= |a| && i <= |b| && a[..i] == b[..i]
    ensures i == |a| ==> StringLe(a, b)
    ensures i == |b| < |a| ==> !StringLe(a, b)
    ensures i < |a| && i < |b| && a[i] != b[i] ==> (StringLe(a, b) <==> a[i] < b[i])
  {
    StringLeAfter(a, b, i);
  }

  lemma {:induction false} StringLeTotal(a: string, b: string)
    ensures StringLe(a, b) || StringLe(b, a)
    ensures StringLe(a, b) && StringLe(b, a) ==> a == b
    ensures StringLe(a, a)
    decreases |a| + |b|, |a|
  {
    if |a| > 0 && |b| > 0 {
      StringLeTotal(a[1..], b[1..]);
      assert a == [a[0]] + a[1..] && b == [b[0]] + b[1..];
    } else if |a| > 0 {
      StringLeTotal(a[1..], b);
    }
  }

  lemma {:induction false} StringLeTransitive(a: string, b: string, d: string)
    requires StringLe(a, b) && StringLe(b, d)
    ensures StringLe(a, d)
  {
    if |a| > 0 && a[0] == b[0] == d[0] {
      StringLeTransitive(a[1..], b[1..], d[1..]);
    }
  }

  lemma StringOrder()
    ensures TotalOrder(StringLe)
  {
    forall a: string, b: string
      ensures StringLe(a, a) && (StringLe(a, b) || StringLe(b, a)) && (StringLe(a, b) && StringLe(b, a) ==> a == b)
    {
      StringLeTotal(a, b);
    }
    forall a: string, b: string, d: string | StringLe(a, b) && StringLe(b, d)
      ensures StringLe(a, d)
    {
      StringLeTransitive(a, b, d);
    }
  }

  // --- Sorting as it is done ---------------------------------------------------------------------

  /** Sorts a slice. */
  method SortSlice<T(!new)>(s: seq<T>, le: (T, T) -> bool) returns (r: seq<T>)
    requires TotalOrder(le)
    ensures Sorted(r, le) && multiset(r) == multiset(s) && r == Sort(s, le)
  {
    hide TotalOrder, Sorted, Insert;
    r := [];
    for i := 0 to |s|
      invariant r == Sort(s[..i], le)
    {
      assert s[..i + 1][..i] == s[..i];
      r := Insert(s[i], r, le);
    }
    assert s[..|s|] == s;
    SortSorts(s, le);
  }

  /** The elements of a set, in whatever order the iteration yields them. */
  method Iterate<T(!new)>(s: set<T>) returns (r: seq<T>)
    ensures Distinct(r) && multiset(r) == multiset(s) && forall x :: x in r <==> x in s
  {
    r := [];
    var left := s;
    while left != {}
      invariant left <= s && Distinct(r) && multiset(r) == multiset(s - left)
      decreases |left|
    {
      var x :| x in left;
      assert x !in multiset(r);
      assert s - (left - {x}) == (s - left) + {x};
      r := r + [x];
      left := left - {x};
    }
    assert s - left == s;
    assert forall x :: x in r <==> x in multiset(r);
  }
}
