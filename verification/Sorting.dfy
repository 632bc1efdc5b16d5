/** A reference for sorting: insertion by a comparison, in the order of equal elements. */
module Sorting {

  /** The comparisons that may be sorted by. */
  ghost predicate StrictWeakOrder<T(!new)>(less: (T, T) -> bool) {
    && (forall x :: !less(x, x))
    && (forall x, y, z :: less(x, y) && less(y, z) ==> less(x, z))
    && (forall x, y, z :: Equal(x, y, less) && Equal(y, z, less) ==> Equal(x, z, less))
  }

  /** Neither comes before the other. */
  ghost predicate Equal<T>(x: T, y: T, less: (T, T) -> bool) {
    !less(x, y) && !less(y, x)
  }

  /** Not coming before is transitive too. */
  lemma {:induction false} NotLess<T(!new)>(x: T, y: T, z: T, less: (T, T) -> bool)
    requires StrictWeakOrder(less) && !less(y, x) && !less(z, y)
    ensures !less(z, x)
  {
    if !less(x, y) && !less(y, z) {
      assert Equal(x, y, less) && Equal(y, z, less);
      assert Equal(x, z, less);
    }
  }

  ghost predicate SortedBy<T(!new)>(s: seq<T>, less: (T, T) -> bool) {
    forall i, j :: 0 <= i < j < |s| ==> !less(s[j], s[i])
  }

  function Insert<T>(s: seq<T>, x: T, less: (T, T) -> bool): seq<T> {
    if s == [] then [x]
    else if less(x, s[|s| - 1]) then Insert(s[..|s| - 1], x, less) + [s[|s| - 1]]
    else s + [x]
  }

  function Sort<T>(s: seq<T>, less: (T, T) -> bool): seq<T> {
    if s == [] then [] else Insert(Sort(s[..|s| - 1], less), s[|s| - 1], less)
  }

  /** No element comes after the bound. */
  ghost predicate AtMost<T(!new)>(s: seq<T>, less: (T, T) -> bool, bound: T) {
    forall i :: 0 <= i < |s| ==> !less(bound, s[i])
  }

  lemma {:induction false} AtMostMore<T(!new)>(s: seq<T>, less: (T, T) -> bool, a: T, b: T)
    requires StrictWeakOrder(less) && AtMost(s, less, a) && !less(b, a)
    ensures AtMost(s, less, b)
  {
    forall i | 0 <= i < |s|
      ensures !less(b, s[i])
    {
      NotLess(s[i], a, b, less);
    }
  }

  lemma {:induction false} SortedAppend<T(!new)>(s: seq<T>, x: T, less: (T, T) -> bool)
    requires SortedBy(s, less) && AtMost(s, less, x)
    ensures SortedBy(s + [x], less)
  {
  }

  lemma {:induction false} OneSorted<T(!new)>(x: T, less: (T, T) -> bool)
    ensures SortedBy([x], less)
  {
  }

  lemma {:induction false} SortedFront<T(!new)>(s: seq<T>, less: (T, T) -> bool)
    requires StrictWeakOrder(less) && s != [] && SortedBy(s, less)
    ensures SortedBy(s[..|s| - 1], less) && AtMost(s, less, s[|s| - 1])
    ensures AtMost(s[..|s| - 1], less, s[|s| - 1])
  {
  }

  lemma {:induction false} InsertAtMost<T(!new)>(s: seq<T>, x: T, less: (T, T) -> bool, bound: T)
    requires AtMost(s, less, bound) && !less(bound, x)
    ensures AtMost(Insert(s, x, less), less, bound)
    decreases |s|
  {
    if s != [] && less(x, s[|s| - 1]) {
      InsertAtMost(s[..|s| - 1], x, less, bound);
    }
  }

  lemma {:induction false} InsertSorts<T(!new)>(s: seq<T>, x: T, less: (T, T) -> bool)
    requires StrictWeakOrder(less) && SortedBy(s, less)
    ensures SortedBy(Insert(s, x, less), less)
    decreases |s|
  {
    hide SortedBy, AtMost;
    if s == [] {
      OneSorted(x, less);
    } else {
      var front, last := s[..|s| - 1], s[|s| - 1];
      SortedFront(s, less);
      if less(x, last) {
        InsertSorts(front, x, less);
        InsertAtMost(front, x, less, last);
        SortedAppend(Insert(front, x, less), last, less);
      } else {
        AtMostMore(s, less, last, x);
        SortedAppend(s, x, less);
      }
    }
  }

  lemma {:induction false} InsertPermutes<T(!new)>(s: seq<T>, x: T, less: (T, T) -> bool)
    ensures multiset(Insert(s, x, less)) == multiset(s) + multiset{x}
    decreases |s|
  {
    if s != [] && less(x, s[|s| - 1]) {
      InsertPermutes(s[..|s| - 1], x, less);
      assert s == s[..|s| - 1] + [s[|s| - 1]];
    }
  }

  lemma {:induction false} Front<T(!new)>(s: seq<T>)
    requires s != []
    ensures multiset(s) == multiset(s[..|s| - 1]) + multiset{s[|s| - 1]}
  {
    assert s == s[..|s| - 1] + [s[|s| - 1]];
  }

  lemma {:induction false} SortPermutes<T(!new)>(s: seq<T>, less: (T, T) -> bool)
    ensures multiset(Sort(s, less)) == multiset(s) && |Sort(s, less)| == |s|
    decreases |s|
  {
    hide Insert;
    if s != [] {
      SortPermutes(s[..|s| - 1], less);
      InsertPermutes(Sort(s[..|s| - 1], less), s[|s| - 1], less);
      Front(s);
    }
    SameLength(Sort(s, less), s);
  }

  lemma {:induction false} SameLength<T(!new)>(a: seq<T>, b: seq<T>)
    requires multiset(a) == multiset(b)
    ensures |a| == |b|
  {
    assert |multiset(a)| == |a| && |multiset(b)| == |b|;
  }

  lemma {:induction false} SortSorts<T(!new)>(s: seq<T>, less: (T, T) -> bool)
    requires StrictWeakOrder(less)
    ensures SortedBy(Sort(s, less), less) && multiset(Sort(s, less)) == multiset(s) && |Sort(s, less)| == |s|
    decreases |s|
  {
    SortPermutes(s, less);
    if s != [] {
      SortSorts(s[..|s| - 1], less);
      hide SortedBy, Insert, StrictWeakOrder;
      InsertSorts(Sort(s[..|s| - 1], less), s[|s| - 1], less);
    }
  }

  lemma {:induction false} LargestLast(a: seq<nat>, x: nat)
    requires a != [] && SortedBy(a, Less) && x in multiset(a)
    ensures x <= a[|a| - 1]
  {
    var i :| 0 <= i < |a| && a[i] == x;
    assert i < |a| - 1 ==> !Less(a[|a| - 1], a[i]);
  }

  lemma {:induction false} FrontSorted(a: seq<nat>)
    requires a != [] && SortedBy(a, Less)
    ensures SortedBy(a[..|a| - 1], Less)
  {
  }

  /** Numbers are sorted in one way only. */
  lemma {:induction false} SortedUnique(a: seq<nat>, b: seq<nat>)
    requires SortedBy(a, Less) && SortedBy(b, Less) && multiset(a) == multiset(b)
    ensures a == b
    decreases |a|
  {
    hide SortedBy;
    SameLength(a, b);
    if a != [] {
      var x, y := a[|a| - 1], b[|b| - 1];
      Front(a);
      Front(b);
      LargestLast(b, x);
      LargestLast(a, y);
      FrontSorted(a);
      FrontSorted(b);
      CancelAny(multiset(a[..|a| - 1]), multiset(b[..|b| - 1]), x);
      SortedUnique(a[..|a| - 1], b[..|b| - 1]);
      assert a == a[..|a| - 1] + [x] && b == b[..|b| - 1] + [y];
    }
  }

  /** The order of numbers. */
  predicate Less(x: nat, y: nat) {
    x < y
  }

  lemma {:induction false} SortNumbers(s: seq<nat>)
    ensures SortedBy(Sort(s, Less), Less) && multiset(Sort(s, Less)) == multiset(s) && |Sort(s, Less)| == |s|
  {
    assert StrictWeakOrder(Less);
    SortSorts(s, Less);
  }

  function Mapped<T>(s: seq<T>, f: T -> nat): (r: seq<nat>)
    ensures |r| == |s|
  {
    seq(|s|, i requires 0 <= i < |s| => f(s[i]))
  }

  lemma {:induction false} RemoveAt<T(!new)>(s: seq<T>, i: nat)
    requires i < |s|
    ensures multiset(s) == multiset(s[..i] + s[i + 1..]) + multiset{s[i]}
  {
    assert s == s[..i] + [s[i]] + s[i + 1..];
  }

  lemma {:induction false} MappedRemove<T(!new)>(s: seq<T>, i: nat, f: T -> nat)
    requires i < |s|
    ensures multiset(Mapped(s, f)) == multiset(Mapped(s[..i] + s[i + 1..], f)) + multiset{f(s[i])}
  {
    var r := Mapped(s, f);
    RemoveAt(r, i);
    assert r[..i] + r[i + 1..] == Mapped(s[..i] + s[i + 1..], f);
  }

  lemma {:induction false} CancelAny<T(!new)>(a: multiset<T>, b: multiset<T>, x: T)
    requires a + multiset{x} == b + multiset{x}
    ensures a == b
  {
    assert a == a + multiset{x} - multiset{x} && b == b + multiset{x} - multiset{x};
  }

  lemma {:induction false} MappedPermuted<T(!new)>(a: seq<T>, b: seq<T>, f: T -> nat)
    requires multiset(a) == multiset(b)
    ensures multiset(Mapped(a, f)) == multiset(Mapped(b, f))
    decreases |a|
  {
    SameLength(a, b);
    if a != [] {
      var x := a[|a| - 1];
      Front(a);
      assert x in multiset(b);
      var i :| 0 <= i < |b| && b[i] == x;
      var a', b' := a[..|a| - 1], b[..i] + b[i + 1..];
      RemoveAt(b, i);
      CancelAny(multiset(a'), multiset(b'), x);
      MappedPermuted(a', b', f);
      MappedRemove(a, |a| - 1, f);
      MappedRemove(b, i, f);
      hide Mapped;
      assert a[..|a| - 1] + a[|a| - 1 + 1..] == a';
    }
  }
}
