/** What a stable sort computes, and when its result does not depend on the order it starts from. */
module StableSort {

  /** A strict weak order. */
  ghost predicate StrictWeak<T(!new)>(less: (T, T) -> bool) {
    && (forall x :: !less(x, x))
    && (forall x, y, z :: less(x, y) && less(y, z) ==> less(x, z))
    && (forall x, y, z :: less(x, z) ==> less(x, y) || less(y, z))
  }

  /** x behind all elements that are not after it. */
  function Insert<T>(s: seq<T>, x: T, less: (T, T) -> bool): (r: seq<T>)
    ensures |r| == |s| + 1
  {
    if s != [] && less(x, s[|s| - 1]) then Insert(s[..|s| - 1], x, less) + [s[|s| - 1]] else s + [x]
  }

  function Sort<T>(s: seq<T>, less: (T, T) -> bool): (r: seq<T>)
    ensures |r| == |s|
  {
    if s == [] then [] else Insert(Sort(s[..|s| - 1], less), s[|s| - 1], less)
  }

  ghost predicate Sorted<T>(s: seq<T>, less: (T, T) -> bool) {
    forall i, j :: 0 <= i < j < |s| ==> !less(s[j], s[i])
  }

  lemma {:induction false} InsertKeepsAll<T(!new)>(s: seq<T>, x: T, less: (T, T) -> bool)
    ensures multiset(Insert(s, x, less)) == multiset(s) + multiset{x}
  {
    if s == [] || !less(x, s[|s| - 1]) {
    } else {
      InsertKeepsAll(s[..|s| - 1], x, less);
      assert s == s[..|s| - 1] + [s[|s| - 1]];
    }
  }

  lemma SplitLast<T>(s: seq<T>)
    requires s != []
    ensures multiset(s) == multiset(s[..|s| - 1]) + multiset{s[|s| - 1]}
  {
    assert s == s[..|s| - 1] + [s[|s| - 1]];
  }

  /** Sorting loses and adds nothing. */
  lemma {:induction false} SortKeepsAll<T(!new)>(s: seq<T>, less: (T, T) -> bool)
    ensures multiset(Sort(s, less)) == multiset(s)
  {
    hide Insert;
    if s == [] {
    } else {
      SortKeepsAll(s[..|s| - 1], less);
      InsertKeepsAll(Sort(s[..|s| - 1], less), s[|s| - 1], less);
      SplitLast(s);
    }
  }

  lemma {:induction false} InsertSorted<T(!new)>(s: seq<T>, x: T, less: (T, T) -> bool)
    requires StrictWeak(less) && Sorted(s, less)
    ensures Sorted(Insert(s, x, less), less)
    ensures forall y :: y in Insert(s, x, less) ==> y in s || y == x
  {
    if s != [] && less(x, s[|s| - 1]) {
      var front, last := s[..|s| - 1], s[|s| - 1];
      InsertSorted(front, x, less);
      var r := Insert(front, x, less);
      forall y | y in r ensures !less(last, y) {
        if y in front {
          var i :| 0 <= i < |front| && front[i] == y;
          assert s[i] == y;
        }
      }
    } else {
      forall i | 0 <= i < |s| ensures !less(x, s[i]) {
        assert i < |s| - 1 ==> !less(s[|s| - 1], s[i]);
      }
    }
  }

  lemma {:induction false} SortSorts<T(!new)>(s: seq<T>, less: (T, T) -> bool)
    requires StrictWeak(less)
    ensures Sorted(Sort(s, less), less)
  {
    if s == [] {
    } else {
      SortSorts(s[..|s| - 1], less);
      InsertSorted(Sort(s[..|s| - 1], less), s[|s| - 1], less);
    }
  }

  /** The elements that compare equal to x, in order. */
  function Alike<T>(s: seq<T>, x: T, less: (T, T) -> bool): seq<T> {
    if s == [] then []
    else
      var e := s[|s| - 1];
      Alike(s[..|s| - 1], x, less) + (if !less(e, x) && !less(x, e) then [e] else [])
  }

  lemma {:induction false} InsertStable<T(!new)>(s: seq<T>, e: T, x: T, less: (T, T) -> bool)
    requires StrictWeak(less) && Sorted(s, less)
    ensures Alike(Insert(s, e, less), x, less) == Alike(s, x, less) + (if !less(e, x) && !less(x, e) then [e] else [])
  {
    if s != [] && less(e, s[|s| - 1]) {
      InsertStable(s[..|s| - 1], e, x, less);
      var r := Insert(s[..|s| - 1], e, less) + [s[|s| - 1]];
      assert r[..|r| - 1] == Insert(s[..|s| - 1], e, less);
    } else {
      assert (s + [e])[..|s|] == s;
    }
  }

  /** Elements that compare equal stay in the order in which they were: together with the other two facts this
      fixes the result. */
  lemma {:induction false} SortStable<T(!new)>(s: seq<T>, x: T, less: (T, T) -> bool)
    requires StrictWeak(less)
    ensures Alike(Sort(s, less), x, less) == Alike(s, x, less)
  {
    if s == [] {
    } else {
      var front := s[..|s| - 1];
      SortStable(front, x, less);
      SortSorts(front, less);
      InsertStable(Sort(front, less), s[|s| - 1], x, less);
    }
  }

  /** No two different elements compare equal. */
  ghost predicate Separates<T>(s: seq<T>, less: (T, T) -> bool) {
    forall x, y :: x in s && y in s && x != y ==> less(x, y) || less(y, x)
  }

  lemma LastIsLast<T(!new)>(s: seq<T>, x: T, less: (T, T) -> bool)
    requires StrictWeak(less) && Sorted(s, less) && x in s
    ensures !less(s[|s| - 1], x)
  {
    var i :| 0 <= i < |s| && s[i] == x;
    assert i < |s| - 1 ==> !less(s[|s| - 1], s[i]);
  }

  /** Sorted sequences of the same elements end alike. */
  lemma LastAgrees<T(!new)>(a: seq<T>, b: seq<T>, less: (T, T) -> bool)
    requires StrictWeak(less) && Sorted(a, less) && Sorted(b, less) && Separates(a, less)
    requires multiset(a) == multiset(b) && a != [] && b != []
    ensures a[|a| - 1] == b[|b| - 1]
  {
    assert a[|a| - 1] in multiset(b) && b[|b| - 1] in multiset(a);
    LastIsLast(a, b[|b| - 1], less);
    LastIsLast(b, a[|a| - 1], less);
  }

  /** A sorted sequence without its last element. */
  lemma WithoutLast<T(!new)>(s: seq<T>, less: (T, T) -> bool)
    requires s != [] && Sorted(s, less) && Separates(s, less)
    ensures var front := s[..|s| - 1];
            Sorted(front, less) && Separates(front, less) && multiset(s) == multiset(front) + multiset{s[|s| - 1]}
  {
    SplitLast(s);
  }

  lemma SeparatesToo<T(!new)>(a: seq<T>, b: seq<T>, less: (T, T) -> bool)
    requires Separates(a, less) && multiset(a) == multiset(b)
    ensures Separates(b, less)
  {
    SameMembers(a, b);
  }

  /** Sorted sequences of the same elements are the same, if no two different elements compare equal. */
  lemma {:induction false} SortedUnique<T(!new)>(a: seq<T>, b: seq<T>, less: (T, T) -> bool)
    requires StrictWeak(less) && Sorted(a, less) && Sorted(b, less) && Separates(a, less) && multiset(a) == multiset(b)
    ensures a == b
    decreases |a|
  {
    hide StrictWeak, Sorted, Separates;
    assert |a| == |multiset(a)| == |multiset(b)| == |b|;
    if a == [] {
    } else {
      var c, d, x := a[..|a| - 1], b[..|b| - 1], a[|a| - 1];
      LastAgrees(a, b, less);
      SeparatesToo(a, b, less);
      WithoutLast(a, less);
      WithoutLast(b, less);
      Cancel(multiset(c), multiset(d), multiset{x});
      SortedUnique(c, d, less);
      assert a == c + [x] && b == d + [x];
    }
  }

  lemma Cancel<T>(a: multiset<T>, b: multiset<T>, c: multiset<T>)
    requires a + c == b + c
    ensures a == b
  {
    assert a == a + c - c && b == b + c - c;
  }

  /** Any order of the same elements sorts to the same sequence, if no two different ones compare equal. */
  lemma SortOrderFree<T(!new)>(a: seq<T>, b: seq<T>, less: (T, T) -> bool)
    requires StrictWeak(less) && Separates(a, less) && multiset(a) == multiset(b)
    ensures Sort(a, less) == Sort(b, less)
  {
    SortKeepsAll(a, less);
    SortKeepsAll(b, less);
    SortSorts(a, less);
    SortSorts(b, less);
    SameMembers(a, Sort(a, less));
    SortedUnique(Sort(a, less), Sort(b, less), less);
  }

  lemma SameMembers<T(!new)>(a: seq<T>, b: seq<T>)
    requires multiset(a) == multiset(b)
    ensures forall x :: x in b ==> x in a
  {
    forall x | x in b ensures x in a {
      assert x in multiset(b);
    }
  }
}
