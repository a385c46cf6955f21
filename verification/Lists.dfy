/** `flatMap`, `[...new Set(values)]` and sorted distinct values, with what does not depend on order. */
module Lists {
  import opened Sorting

  /** JavaScript's `s.flatMap(f)`. */
  function Collect<T, U>(f: T -> seq<U>, s: seq<T>): seq<U> {
    if s == [] then [] else Collect(f, s[..|s| - 1]) + f(s[|s| - 1])
  }

  lemma CollectSnoc<T, U>(f: T -> seq<U>, s: seq<T>, x: T)
    ensures Collect(f, s + [x]) == Collect(f, s) + f(x)
  {
    assert (s + [x])[..|s|] == s;
  }

  lemma {:induction false} CollectSame<T, U>(f: T -> seq<U>, g: T -> seq<U>, s: seq<T>)
    requires forall x <- s :: f(x) == g(x)
    ensures Collect(f, s) == Collect(g, s)
  {
    if s != [] {
      CollectSame(f, g, s[..|s| - 1]);
    }
  }

  lemma {:induction false} CollectConcat<T, U>(f: T -> seq<U>, p: seq<T>, q: seq<T>)
    ensures Collect(f, p + q) == Collect(f, p) + Collect(f, q)
  {
    if q == [] {
      assert p + q == p;
    } else {
      assert (p + q)[..|p + q| - 1] == p + q[..|q| - 1];
      CollectConcat(f, p, q[..|q| - 1]);
    }
  }

  lemma {:induction false} CollectedFrom<T, U>(f: T -> seq<U>, s: seq<T>, u: U)
    ensures u in Collect(f, s) <==> exists x <- s :: u in f(x)
  {
    if s != [] {
      var n := |s| - 1;
      CollectedFrom(f, s[..n], u);
      assert s == s[..n] + [s[n]];
    }
  }

  lemma WithoutOne<T>(p: seq<T>, x: T, q: seq<T>)
    ensures multiset(p + q) == multiset(p + ([x] + q)) - multiset{x}
  {
  }

  /** The last element of one list, taken out of a shuffled one. */
  lemma TakeOut<T>(a: seq<T>, b: seq<T>) returns (p: seq<T>, q: seq<T>)
    requires a != [] && multiset(a) == multiset(b)
    ensures b == p + ([a[|a| - 1]] + q) && multiset(a[..|a| - 1]) == multiset(p + q)
  {
    var x := a[|a| - 1];
    WithoutLast(a);
    SameElements(a, b);
    var j :| 0 <= j < |b| && b[j] == x;
    p, q := b[..j], b[j + 1..];
    assert b == p + ([x] + q);
    WithoutOne(p, x, q);
  }

  lemma WithoutLast<T>(a: seq<T>)
    requires a != []
    ensures a[|a| - 1] in a && multiset(a[..|a| - 1]) == multiset(a) - multiset{a[|a| - 1]}
  {
    assert a == a[..|a| - 1] + [a[|a| - 1]];
  }

  /** Shuffled lists collect the same elements, as often. */
  lemma {:induction false} CollectShuffled<T, U>(f: T -> seq<U>, a: seq<T>, b: seq<T>)
    requires multiset(a) == multiset(b)
    ensures multiset(Collect(f, a)) == multiset(Collect(f, b))
    decreases |a|
  {
    if a == [] {
      assert |multiset(b)| == 0;
    } else {
      var n, x := |a| - 1, a[|a| - 1];
      var p, q := TakeOut(a, b);
      CollectShuffled(f, a[..n], p + q);
      CollectConcat(f, p, q);
      CollectConcat(f, p, [x] + q);
      CollectConcat(f, [x], q);
      assert [x][..0] == [] && Collect(f, [x]) == [] + f(x);
      assert [] + f(x) == f(x);
    }
  }

  /** `[...new Set(values)]`: every value once, at its first place. */
  function Distinct(values: seq<string>): (r: seq<string>)
    ensures forall v :: v in r <==> v in values
    ensures forall i, j :: 0 <= i < j < |r| ==> r[i] != r[j]
  {
    if values == [] then []
    else
      var n := |values| - 1;
      var before := Distinct(values[..n]);
      if values[n] in before then before else before + [values[n]]
  }

  /** `values.toSorted(compare)` by code units. */
  function SortStrings(values: seq<string>): seq<string> { SortBy((a, b) => StringLess(a, b), values) }

  ghost predicate Increasing(values: seq<string>) {
    forall i, j :: 0 <= i < j < |values| ==> StringLess(values[i], values[j])
  }

  lemma StringOrder()
    ensures StrictTotalOrder((a, b) => StringLess(a, b))
  {
    forall a ensures !StringLess(a, a) {
      StringLessIrreflexive(a);
    }
    forall a, b ensures StringLess(a, b) || a == b || StringLess(b, a) {
      StringLessTotal(a, b);
    }
    forall a, b, c | StringLess(a, b) && StringLess(b, c) ensures StringLess(a, c) {
      StringLessTransitive(a, b, c);
    }
  }

  /** The sorted distinct values: each once, in order. */
  lemma SortedDistinctMeaning(values: seq<string>)
    ensures forall v :: v in SortStrings(Distinct(values)) <==> v in values
    ensures Increasing(SortStrings(Distinct(values)))
  {
    var d, less := Distinct(values), (a, b) => StringLess(a, b);
    var r := SortStrings(d);
    StringOrder();
    SameElements(d, r);
    SortBySorts(less, d);
    hide StringLess, Distinct;
    forall i, j | 0 <= i < j < |r| ensures StringLess(r[i], r[j]) {
      ShuffledStayDistinct(d, r, i, j);
      StrictlySorted(less, r, i, j);
    }
  }

  lemma ShuffledStayDistinct(a: seq<string>, b: seq<string>, i: nat, j: nat)
    requires forall i, j :: 0 <= i < j < |a| ==> a[i] != a[j]
    requires multiset(a) == multiset(b) && i < j < |b|
    ensures b[i] != b[j]
  {
    if b[i] == b[j] {
      var x := b[i];
      assert b == b[..i] + [x] + b[i + 1..j] + [x] + b[j + 1..];
      assert multiset(b)[x] >= 2;
      OnlyOnce(a, x);
    }
  }

  lemma {:induction false} OnlyOnce(a: seq<string>, x: string)
    requires forall i, j :: 0 <= i < j < |a| ==> a[i] != a[j]
    ensures multiset(a)[x] <= 1
  {
    if a != [] {
      var n := |a| - 1;
      assert a == a[..n] + [a[n]];
      OnlyOnce(a[..n], x);
      if x == a[n] {
        assert x !in a[..n];
      }
    }
  }

  /** Lists of the same values have the same sorted distinct values. */
  lemma SortedDistinctOfSame(a: seq<string>, b: seq<string>)
    requires forall v :: v in a <==> v in b
    ensures SortStrings(Distinct(a)) == SortStrings(Distinct(b))
  {
    var x, y := Distinct(a), Distinct(b);
    forall v ensures multiset(x)[v] == multiset(y)[v] {
      OnlyOnce(x, v);
      OnlyOnce(y, v);
      assert v in multiset(x) <==> v in x;
      assert v in multiset(y) <==> v in y;
    }
    assert multiset(x) == multiset(y);
    StringOrder();
    SortIgnoresOrder((p, q) => StringLess(p, q), x, y);
  }

  ghost predicate NoRepeats<T>(s: seq<T>) { forall i, j :: 0 <= i < j < |s| ==> s[i] != s[j] }

  lemma {:induction false} OnceAtMost<T>(s: seq<T>, x: T)
    requires NoRepeats(s)
    ensures multiset(s)[x] <= 1
  {
    if s != [] {
      var n := |s| - 1;
      assert s == s[..n] + [s[n]];
      OnceAtMost(s[..n], x);
      if x == s[n] {
        assert x !in s[..n];
      }
    }
  }

  lemma ShuffledNoRepeats<T>(a: seq<T>, b: seq<T>)
    requires NoRepeats(a) && multiset(a) == multiset(b)
    ensures NoRepeats(b)
  {
    forall i, j | 0 <= i < j < |b| ensures b[i] != b[j] {
      if b[i] == b[j] {
        var x := b[i];
        assert b == b[..i] + [x] + b[i + 1..j] + [x] + b[j + 1..];
        assert multiset(b)[x] >= 2;
        OnceAtMost(a, x);
      }
    }
  }

  /** Collecting distinct things from distinct elements. */
  lemma {:induction false} CollectNoRepeats<T, U>(f: T -> seq<U>, s: seq<T>)
    requires NoRepeats(s) && forall x <- s :: NoRepeats(f(x))
    requires forall x <- s, y <- s, u <- f(x) :: u in f(y) ==> x == y
    ensures NoRepeats(Collect(f, s))
  {
    if s != [] {
      var n := |s| - 1;
      var before, last := Collect(f, s[..n]), f(s[n]);
      assert s == s[..n] + [s[n]];
      CollectNoRepeats(f, s[..n]);
      forall u | u in before ensures u !in last {
        CollectedFrom(f, s[..n], u);
      }
      assert NoRepeats(last) && NoRepeats(before);
      forall i, j | 0 <= i < j < |before + last| ensures (before + last)[i] != (before + last)[j] {
        if i < |before| <= j {
          assert before[i] in before && last[j - |before|] in last;
        }
      }
    }
  }
}
