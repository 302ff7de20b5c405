/** Rust's `sort_by` / `sort_by_key`: a stable sort by a strict weak order.  Sorting is a
    library call in the program, so it is a function here; `StableSortUnique` shows that
    being sorted and stable leaves no freedom, whatever algorithm the library runs. */
module Sorting {

  ghost predicate StrictWeak<T(!new)>(less: (T, T) -> bool) {
    && (forall a :: !less(a, a))
    && (forall a, b, c :: less(a, b) && less(b, c) ==> less(a, c))
    && (forall a, b, c :: less(a, b) ==> less(a, c) || less(c, b))
  }

  predicate Tied<T>(less: (T, T) -> bool, a: T, b: T) {
    !less(a, b) && !less(b, a)
  }

  ghost predicate Sorted<T>(less: (T, T) -> bool, s: seq<T>) {
    forall i, j :: 0 <= i < j < |s| ==> !less(s[j], s[i])
  }

  /** The elements of `s` tied with `x`, in their order in `s`. */
  function TiedWith<T>(less: (T, T) -> bool, s: seq<T>, x: T): seq<T> {
    if s == [] then []
    else
      var rest := TiedWith(less, s[..|s| - 1], x);
      if Tied(less, s[|s| - 1], x) then rest + [s[|s| - 1]] else rest
  }

  /** Puts `e` after every element it does not precede. */
  function Insert<T>(less: (T, T) -> bool, s: seq<T>, e: T): (r: seq<T>)
    ensures multiset(r) == multiset(s) + multiset{e}
  {
    if s == [] || !less(e, s[|s| - 1]) then s + [e]
    else
      assert s == s[..|s| - 1] + [s[|s| - 1]];
      Insert(less, s[..|s| - 1], e) + [s[|s| - 1]]
  }

  function StableSort<T>(less: (T, T) -> bool, s: seq<T>): (r: seq<T>)
    ensures multiset(r) == multiset(s)
  {
    if s == [] then []
    else
      assert s == s[..|s| - 1] + [s[|s| - 1]];
      Insert(less, StableSort(less, s[..|s| - 1]), s[|s| - 1])
  }

  lemma SplitAt<T>(s: seq<T>, i: nat)
    requires i < |s|
    ensures s[..i + 1] == s[..i] + [s[i]]
    ensures s == s[..i] + ([s[i]] + s[i + 1..])
    ensures s == (s[..i] + [s[i]]) + s[i + 1..]
  {}

  /** `e` is the last element that passes the test. */
  ghost predicate IsLast<T>(s: seq<T>, test: T -> bool, e: T) {
    exists i :: LastAt(s, test, e, i)
  }

  ghost predicate LastAt<T>(s: seq<T>, test: T -> bool, e: T, i: int) {
    0 <= i < |s| && s[i] == e && test(e) && forall j :: i < j < |s| ==> !test(s[j])
  }

  lemma LastOneMore<T>(s: seq<T>, test: T -> bool, x: T, e: T)
    ensures IsLast(s + [x], test, e) <==> if test(x) then e == x else IsLast(s, test, e)
  {
    var all, n := s + [x], |s|;
    if test(x) {
      assert all[n] == x && LastAt(all, test, x, n);
    } else {
      if i :| LastAt(all, test, e, i) {
        assert LastAt(s, test, e, i) by {
          assert forall j :: i < j < n ==> s[j] == all[j];
        }
      }
      if i :| LastAt(s, test, e, i) {
        assert LastAt(all, test, e, i) by {
          assert forall j :: i < j < n ==> s[j] == all[j];
        }
      }
    }
  }

  lemma SameElements<T>(a: seq<T>, b: seq<T>)
    requires multiset(a) == multiset(b)
    ensures |a| == |b|
    ensures forall x :: x in a <==> x in b
  {
    assert |multiset(a)| == |a| && |multiset(b)| == |b|;
    forall x ensures x in a <==> x in b {
      assert x in a <==> x in multiset(a);
      assert x in b <==> x in multiset(b);
    }
  }

  lemma SortedAppend<T>(less: (T, T) -> bool, s: seq<T>, e: T)
    requires Sorted(less, s)
    requires forall x :: x in s ==> !less(e, x)
    ensures Sorted(less, s + [e])
  {}

  lemma LastNotBelow<T(!new)>(less: (T, T) -> bool, s: seq<T>, x: T)
    requires StrictWeak(less) && Sorted(less, s) && x in s
    ensures !less(s[|s| - 1], x)
  {
    var i :| 0 <= i < |s| && s[i] == x;
    assert i < |s| - 1 ==> !less(s[|s| - 1], s[i]);
  }

  lemma {:induction false} InsertSorted<T(!new)>(less: (T, T) -> bool, s: seq<T>, e: T)
    requires StrictWeak(less) && Sorted(less, s)
    ensures Sorted(less, Insert(less, s, e))
  {
    if s == [] {
    } else if less(e, s[|s| - 1]) {
      var front, last := s[..|s| - 1], s[|s| - 1];
      InsertSorted(less, front, e);
      var r := Insert(less, front, e);
      SameElements(r, front + [e]);
      forall x | x in r ensures !less(last, x) {
        if x in front {
          LastNotBelow(less, s, x);
        }
      }
      SortedAppend(less, r, last);
    } else {
      forall x | x in s ensures !less(e, x) {
        LastNotBelow(less, s, x);
      }
      SortedAppend(less, s, e);
    }
  }

  lemma {:induction false} InsertTied<T(!new)>(less: (T, T) -> bool, s: seq<T>, e: T, x: T)
    requires StrictWeak(less)
    ensures TiedWith(less, Insert(less, s, e), x) == TiedWith(less, s + [e], x)
  {
    if s != [] && less(e, s[|s| - 1]) {
      var front, last := s[..|s| - 1], s[|s| - 1];
      InsertTied(less, front, e, x);
      var r := Insert(less, front, e);
      assert (r + [last])[..|r|] == r;
      assert (front + [e])[..|front|] == front;
      assert (s + [e])[..|s|] == s;
    }
  }

  /** The order is right and ties keep their input order. */
  lemma {:induction false} StableSortCorrect<T(!new)>(less: (T, T) -> bool, s: seq<T>)
    requires StrictWeak(less)
    ensures Sorted(less, StableSort(less, s))
    ensures forall x :: TiedWith(less, StableSort(less, s), x) == TiedWith(less, s, x)
  {
    if s != [] {
      var front, last := s[..|s| - 1], s[|s| - 1];
      StableSortCorrect(less, front);
      InsertSorted(less, StableSort(less, front), last);
      forall x ensures TiedWith(less, StableSort(less, s), x) == TiedWith(less, s, x) {
        var r := StableSort(less, front);
        InsertTied(less, r, last, x);
        assert (r + [last])[..|r|] == r;
      }
    }
  }

  lemma {:induction false} TiedAppend<T>(less: (T, T) -> bool, a: seq<T>, b: seq<T>, x: T)
    ensures TiedWith(less, a + b, x) == TiedWith(less, a, x) + TiedWith(less, b, x)
  {
    if b == [] {
      assert a + b == a;
    } else {
      assert (a + b)[..|a + b| - 1] == a + b[..|b| - 1];
      TiedAppend(less, a, b[..|b| - 1], x);
    }
  }

  lemma {:induction false} TiedIn<T>(less: (T, T) -> bool, s: seq<T>, x: T)
    ensures forall y :: y in TiedWith(less, s, x) <==> y in s && Tied(less, y, x)
  {
    if s != [] {
      TiedIn(less, s[..|s| - 1], x);
      assert s == s[..|s| - 1] + [s[|s| - 1]];
    }
  }

  lemma LastTiesWithItself<T(!new)>(less: (T, T) -> bool, s: seq<T>)
    requires StrictWeak(less) && s != []
    ensures var tied := TiedWith(less, s, s[|s| - 1]); tied != [] && tied[|tied| - 1] == s[|s| - 1]
  {}

  /** The last element of a sorted sequence is also last among those it ties with, so two
      sorted sequences with the same ties end alike. */
  lemma SameLast<T(!new)>(less: (T, T) -> bool, a: seq<T>, b: seq<T>)
    requires StrictWeak(less) && Sorted(less, a) && Sorted(less, b) && a != []
    requires forall x :: TiedWith(less, a, x) == TiedWith(less, b, x)
    ensures b != [] && a[|a| - 1] == b[|b| - 1]
  {
    var u := a[|a| - 1];
    TiedIn(less, a, u);
    TiedIn(less, b, u);
    LastTiesWithItself(less, a);
    assert u in TiedWith(less, b, u);
    var v := b[|b| - 1];
    TiedIn(less, a, v);
    TiedIn(less, b, v);
    LastTiesWithItself(less, b);
    LastNotBelow(less, b, u);
    assert v in TiedWith(less, a, v);
    LastNotBelow(less, a, v);
    assert Tied(less, v, u);
    SameTies(less, a, u, v);
  }

  lemma {:induction false} SameTies<T(!new)>(less: (T, T) -> bool, s: seq<T>, x: T, y: T)
    requires StrictWeak(less) && Tied(less, x, y)
    ensures TiedWith(less, s, x) == TiedWith(less, s, y)
  {
    if s != [] {
      SameTies(less, s[..|s| - 1], x, y);
    }
  }

  lemma {:induction false} StableSortUnique<T(!new)>(less: (T, T) -> bool, a: seq<T>, b: seq<T>)
    requires StrictWeak(less) && Sorted(less, a) && Sorted(less, b)
    requires forall x :: TiedWith(less, a, x) == TiedWith(less, b, x)
    ensures a == b
  {
    if a == [] {
      if b != [] {
        SameLast(less, b, a);
        assert false;
      }
    } else {
      SameLast(less, a, b);
      var fa, fb := a[..|a| - 1], b[..|b| - 1];
      forall x ensures TiedWith(less, fa, x) == TiedWith(less, fb, x) {
        assert TiedWith(less, a, x) == TiedWith(less, b, x);
        var p, q := TiedWith(less, fa, x), TiedWith(less, fb, x);
        if Tied(less, a[|a| - 1], x) {
          assert p == (p + [a[|a| - 1]])[..|p|] && q == (q + [a[|a| - 1]])[..|q|];
        }
      }
      StableSortUnique(less, fa, fb);
      assert a == fa + [a[|a| - 1]] && b == fb + [b[|b| - 1]];
    }
  }
}
