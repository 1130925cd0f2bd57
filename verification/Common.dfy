/** Small vocabulary shared by every module: optional values, results, and counting over sequences. */
module Common {

  datatype Option<+T> = None | Some(value: T) {
    /** The value, or `default` when there is none. */
    function GetOr(default: T): T {
      match this
      case Some(v) => v
      case None => default
    }
  }

  datatype Result<+T, +E> = Ok(value: T) | Err(error: E)

  /** The elements of `s` that satisfy `p`, in order. */
  function Filter<T>(s: seq<T>, p: T -> bool): (r: seq<T>)
    ensures forall x :: x in r ==> x in s && p(x)
    ensures |r| <= |s|
  {
    if s == [] then []
    else (if p(s[0]) then [s[0]] else []) + Filter(s[1..], p)
  }

  /** Filtering keeps every occurrence of an element that satisfies `p` and no occurrence of any other. */
  lemma {:induction false} FilterMultiplicity<T>(s: seq<T>, p: T -> bool, x: T)
    ensures multiset(Filter(s, p))[x] == if p(x) then multiset(s)[x] else 0
  {
    if s == [] {
    } else {
      FilterMultiplicity(s[1..], p, x);
      assert s == [s[0]] + s[1..];
    }
  }

  function Elements<T>(s: seq<T>): set<T> {
    set x | x in s
  }

  lemma ElementsAppend<T>(s: seq<T>, x: T)
    ensures Elements(s + [x]) == Elements(s) + {x}
  {
  }

  /** No element occurs twice. */
  ghost predicate Distinct<T>(s: seq<T>) {
    forall i, j :: 0 <= i < j < |s| ==> s[i] != s[j]
  }

  /** A sequence without repetition has as many elements as its set. */
  lemma {:induction false} DistinctCardinality<T>(s: seq<T>)
    requires Distinct(s)
    ensures |Elements(s)| == |s|
  {
    if s == [] {
      assert Elements(s) == {};
    } else {
      var rest := s[..|s| - 1];
      DistinctCardinality(rest);
      var last := s[|s| - 1];
      assert s == rest + [last];
      ElementsAppend(rest, last);
      assert last !in rest;
    }
  }

  /** A subset is no larger. */
  lemma SubsetCardinality<T>(a: set<T>, b: set<T>)
    requires a <= b
    ensures |a| <= |b|
    ensures |a| == |b| ==> a == b
  {
    assert b == a + (b - a);
    assert |b| == |a| + |b - a|;
  }

  // ---------------------------------------------------------------- sorting

  function Insert<T>(order: seq<T>, x: T, before: (T, T) -> bool): (r: seq<T>)
    ensures |r| == |order| + 1
  {
    if order == [] || before(x, order[0]) then [x] + order else [order[0]] + Insert(order[1..], x, before)
  }

  function Sort<T>(s: seq<T>, before: (T, T) -> bool): (r: seq<T>)
    ensures |r| == |s|
  {
    if s == [] then [] else Insert(Sort(s[..|s| - 1], before), s[|s| - 1], before)
  }

  ghost predicate Sorted<T>(s: seq<T>, before: (T, T) -> bool) {
    forall i, j :: 0 <= i < j < |s| ==> before(s[i], s[j])
  }

  ghost predicate IsOrder<T(!new)>(before: (T, T) -> bool) {
    && (forall a, b :: before(a, b) || before(b, a))
    && (forall a, b, c :: before(a, b) && before(b, c) ==> before(a, c))
  }

  lemma SortedFrom<T>(x: T, s: seq<T>, before: (T, T) -> bool)
    requires Sorted(s, before) && forall y :: y in s ==> before(x, y)
    ensures Sorted([x] + s, before)
  {
    forall i, j | 0 <= i < j < |s| + 1
      ensures before(([x] + s)[i], ([x] + s)[j])
    {
      assert ([x] + s)[j] == s[j - 1] && (i > 0 ==> ([x] + s)[i] == s[i - 1]);
    }
  }

  lemma {:induction false} InsertSorts<T(!new)>(order: seq<T>, x: T, before: (T, T) -> bool)
    requires IsOrder(before) && Sorted(order, before)
    ensures Sorted(Insert(order, x, before), before)
    ensures multiset(Insert(order, x, before)) == multiset(order) + multiset{x}
  {
    if order == [] {
    } else {
      var first, rest := order[0], order[1..];
      assert order == [first] + rest;
      if before(x, first) {
        forall y | y in order
          ensures before(x, y)
        {
          assert y == first || before(first, y);
        }
        SortedFrom(x, order, before);
      } else {
        InsertSorts(rest, x, before);
        var s := Insert(rest, x, before);
        forall y | y in s
          ensures before(first, y)
        {
          assert y in multiset(s);
          assert y == x || y in multiset(rest);
        }
        SortedFrom(first, s, before);
      }
    }
  }

  lemma {:induction false} SortSorts<T(!new)>(s: seq<T>, before: (T, T) -> bool)
    requires IsOrder(before)
    ensures Sorted(Sort(s, before), before) && multiset(Sort(s, before)) == multiset(s)
  {
    if s == [] {
    } else {
      var n := |s| - 1;
      SortSorts(s[..n], before);
      InsertSorts(Sort(s[..n], before), s[n], before);
      assert s == s[..n] + [s[n]];
    }
  }

  /** An element is inserted behind those it may not come before. */
  lemma {:induction false} InsertPlace<T>(order: seq<T>, x: T, before: (T, T) -> bool) returns (k: nat)
    ensures k <= |order| && Insert(order, x, before) == order[..k] + [x] + order[k..]
    ensures forall i :: 0 <= i < k ==> !before(x, order[i])
  {
    if order == [] || before(x, order[0]) {
      k := 0;
    } else {
      var l := InsertPlace(order[1..], x, before);
      k := l + 1;
      assert order[..k] == [order[0]] + order[1..][..l] && order[k..] == order[1..][l..];
    }
  }
}
