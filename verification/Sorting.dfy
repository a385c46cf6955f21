/** `toSorted` with a comparator, and the order of strings that most comparators use. */
module Sorting {

  /** JavaScript's `<` on strings. */
  predicate StringLess(a: string, b: string) {
    b != "" && (a == "" || a[0] < b[0] || (a[0] == b[0] && StringLess(a[1..], b[1..])))
  }

  lemma {:induction false} StringLessIrreflexive(a: string)
    ensures !StringLess(a, a)
  {
    if a != "" {
      StringLessIrreflexive(a[1..]);
    }
  }

  lemma {:induction false} StringLessTotal(a: string, b: string)
    ensures StringLess(a, b) || a == b || StringLess(b, a)
  {
    if a != "" && b != "" && a[0] == b[0] {
      StringLessTotal(a[1..], b[1..]);
      if a[1..] == b[1..] {
        assert a == [a[0]] + a[1..] == b;
      }
    }
  }

  lemma {:induction false} StringLessTransitive(a: string, b: string, c: string)
    requires StringLess(a, b) && StringLess(b, c)
    ensures StringLess(a, c)
  {
    if a != "" && a[0] == b[0] == c[0] {
      StringLessTransitive(a[1..], b[1..], c[1..]);
    }
  }

  /** Up to `k` the two agree; there `a` ends, or has the smaller character. */
  ghost predicate LessAt(a: string, b: string, k: nat) {
    k <= |a| && k < |b| && a[..k] == b[..k] && (k < |a| ==> a[k] < b[k])
  }

  lemma LessAtNext(a: string, b: string, k: nat)
    requires a != "" && b != ""
    ensures LessAt(a, b, k + 1) <==> a[0] == b[0] && LessAt(a[1..], b[1..], k)
  {
    if k < |a| && k < |b| {
      var x, y := a[1..][..k], b[1..][..k];
      assert a[..k + 1] == [a[0]] + x && b[..k + 1] == [b[0]] + y;
      assert a[..k + 1] == b[..k + 1] <==> a[0] == b[0] && x == y by {
        assert ([a[0]] + x)[1..] == x && ([b[0]] + y)[1..] == y;
      }
    }
  }

  /** One string is less than another if it is a proper prefix or smaller at the first difference. */
  lemma {:induction false} StringLessExactly(a: string, b: string)
    ensures StringLess(a, b) <==> exists k: nat :: LessAt(a, b, k)
  {
    if a != "" && b != "" {
      StringLessExactly(a[1..], b[1..]);
      assert LessAt(a, b, 0) <==> a[0] < b[0];
      hide LessAt;
      if k: nat :| LessAt(a, b, k) && k > 0 {
        LessAtNext(a, b, k - 1);
        assert LessAt(a[1..], b[1..], k - 1);
      }
      if k: nat :| LessAt(a[1..], b[1..], k) && a[0] == b[0] {
        LessAtNext(a, b, k);
        assert LessAt(a, b, k + 1);
      }
    } else {
      forall k: nat ensures LessAt(a, b, k) <==> k == 0 && a == "" && b != "" {
      }
      assert StringLess(a, b) <==> LessAt(a, b, 0);
    }
  }

  /** A strict total order. */
  ghost predicate StrictTotalOrder<T(!new)>(less: (T, T) -> bool) {
    && (forall x :: !less(x, x))
    && (forall x, y :: less(x, y) || x == y || less(y, x))
    && (forall x, y, z :: less(x, y) && less(y, z) ==> less(x, z))
  }

  /** Insertion behind everything that is not greater. */
  function Insert<T>(less: (T, T) -> bool, x: T, sorted: seq<T>): (r: seq<T>)
    ensures multiset(r) == multiset(sorted) + multiset{x}
  {
    if sorted == [] then [x]
    else if less(x, sorted[0]) then [x] + sorted
    else
      assert sorted == [sorted[0]] + sorted[1..];
      [sorted[0]] + Insert(less, x, sorted[1..])
  }

  /** `s.toSorted(compare)`, which is stable. */
  function SortBy<T>(less: (T, T) -> bool, s: seq<T>): (r: seq<T>)
    ensures multiset(r) == multiset(s)
  {
    if s == [] then []
    else
      assert s == s[..|s| - 1] + [s[|s| - 1]];
      Insert(less, s[|s| - 1], SortBy(less, s[..|s| - 1]))
  }

  /** `x` comes before everything else in `s`. */
  ghost predicate IsFirst<T>(less: (T, T) -> bool, x: T, s: seq<T>) {
    x in s && forall y <- s :: y == x || less(x, y)
  }

  lemma InsertFirst<T(!new)>(less: (T, T) -> bool, x: T, sorted: seq<T>)
    requires StrictTotalOrder(less) && (sorted != [] ==> IsFirst(less, sorted[0], sorted))
    ensures Insert(less, x, sorted) != [] && IsFirst(less, Insert(less, x, sorted)[0], Insert(less, x, sorted))
  {
    var r := Insert(less, x, sorted);
    forall y | y in r ensures y in sorted || y == x {
      assert y in multiset(r);
    }
  }

  /** The head of the sorted list comes before everything else. */
  lemma {:induction false} SortedFirst<T(!new)>(less: (T, T) -> bool, s: seq<T>)
    requires StrictTotalOrder(less) && s != []
    ensures SortBy(less, s) != [] && IsFirst(less, SortBy(less, s)[0], s)
  {
    var before := s[..|s| - 1];
    if before != [] {
      SortedFirst(less, before);
      SameElements(before, SortBy(less, before));
    }
    InsertFirst(less, s[|s| - 1], SortBy(less, before));
    SameElements(s, SortBy(less, s));
  }

  /** No element comes before an earlier one. */
  ghost predicate Sorted<T>(less: (T, T) -> bool, s: seq<T>) {
    forall i, j :: 0 <= i < j < |s| ==> !less(s[j], s[i])
  }

  lemma {:induction false} InsertSorted<T(!new)>(less: (T, T) -> bool, x: T, sorted: seq<T>)
    requires StrictTotalOrder(less) && Sorted(less, sorted)
    ensures Sorted(less, Insert(less, x, sorted))
  {
    if sorted != [] {
      var head, tail := sorted[0], sorted[1..];
      if less(x, head) {
        forall j | 0 <= j < |sorted| ensures !less(sorted[j], x) {
          assert j > 0 ==> !less(sorted[j], head);
        }
      } else {
        InsertSorted(less, x, tail);
        var rest := Insert(less, x, tail);
        forall y | y in rest ensures !less(y, head) {
          assert y in multiset(rest);
          if y != x {
            var j :| 0 <= j < |tail| && tail[j] == y;
            assert sorted[j + 1] == y;
          }
        }
      }
    }
  }

  lemma {:induction false} SortBySorts<T(!new)>(less: (T, T) -> bool, s: seq<T>)
    requires StrictTotalOrder(less)
    ensures Sorted(less, SortBy(less, s))
  {
    if s != [] {
      SortBySorts(less, s[..|s| - 1]);
      InsertSorted(less, s[|s| - 1], SortBy(less, s[..|s| - 1]));
    }
  }

  /** There is only one sorted list of given elements. */
  lemma {:induction false} SortedIsUnique<T(!new)>(less: (T, T) -> bool, a: seq<T>, b: seq<T>)
    requires StrictTotalOrder(less) && Sorted(less, a) && Sorted(less, b) && multiset(a) == multiset(b)
    ensures a == b
  {
    if a == [] {
      assert |multiset(b)| == 0;
    } else {
      assert |multiset(b)| == |multiset(a)| > 0;
      SameElements(a, b);
      assert a[0] in b && b[0] in a;
      HeadsAgree(less, a, b);
      hide StrictTotalOrder, Sorted;
      WithoutHead(a);
      WithoutHead(b);
      SortedTail(less, a);
      SortedTail(less, b);
      SortedIsUnique(less, a[1..], b[1..]);
    }
  }

  lemma WithoutHead<T>(s: seq<T>)
    requires s != []
    ensures s == [s[0]] + s[1..] && multiset(s[1..]) == multiset(s) - multiset{s[0]}
  {
    assert s == [s[0]] + s[1..];
  }

  lemma SortedTail<T>(less: (T, T) -> bool, s: seq<T>)
    requires Sorted(less, s) && s != []
    ensures Sorted(less, s[1..])
  {
  }

  lemma StrictlySorted<T(!new)>(less: (T, T) -> bool, s: seq<T>, i: nat, j: nat)
    requires StrictTotalOrder(less) && Sorted(less, s) && i < j < |s| && s[i] != s[j]
    ensures less(s[i], s[j])
  {
  }

  lemma HeadsAgree<T(!new)>(less: (T, T) -> bool, a: seq<T>, b: seq<T>)
    requires StrictTotalOrder(less) && Sorted(less, a) && Sorted(less, b) && a != [] && b != []
    requires a[0] in b && b[0] in a
    ensures a[0] == b[0]
  {
    var i :| 0 <= i < |a| && a[i] == b[0];
    var j :| 0 <= j < |b| && b[j] == a[0];
    assert !less(b[0], a[0]) && !less(a[0], b[0]);
  }

  /** Sorting does not depend on the order of its input. */
  lemma SortIgnoresOrder<T(!new)>(less: (T, T) -> bool, a: seq<T>, b: seq<T>)
    requires StrictTotalOrder(less) && multiset(a) == multiset(b)
    ensures SortBy(less, a) == SortBy(less, b)
  {
    SortBySorts(less, a);
    SortBySorts(less, b);
    SortedIsUnique(less, SortBy(less, a), SortBy(less, b));
  }

  lemma SameElements<T>(a: seq<T>, b: seq<T>)
    requires multiset(a) == multiset(b)
    ensures forall x :: x in a <==> x in b
  {
    forall x ensures x in a <==> x in b {
      assert x in a <==> x in multiset(a);
      assert x in b <==> x in multiset(b);
    }
  }
}
