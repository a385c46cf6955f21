/** Handing out numbered seats one after the other: which seat is taken is a matter of counting. The id registry hands
    out the ids of a family this way. */
module Seats {

  function Image(js: set<nat>, f: nat -> nat): set<nat> { set j <- js :: f(j) }

  ghost predicate Injective(js: set<nat>, f: nat -> nat) {
    forall j <- js, k <- js :: f(j) == f(k) ==> j == k
  }

  lemma {:induction false} ImageSize(js: set<nat>, f: nat -> nat)
    requires Injective(js, f)
    ensures |Image(js, f)| == |js|
    decreases |js|
  {
    if js != {} {
      var j :| j in js;
      ImageSize(js - {j}, f);
      assert Image(js, f) == Image(js - {j}, f) + {f(j)};
    }
  }

  lemma {:induction false} SubsetSize(a: set<nat>, b: set<nat>)
    requires a <= b
    ensures |a| <= |b|
    decreases |a|
  {
    if a != {} {
      var x :| x in a;
      SubsetSize(a - {x}, b - {x});
    }
  }

  /** The numbers from 1 to `n`. */
  function UpTo(n: nat): (r: set<nat>)
    ensures |r| == n && forall u :: u in r <==> 1 <= u <= n
  {
    if n == 0 then {} else UpTo(n - 1) + {n}
  }

  lemma PartsSize(all: set<nat>, a: set<nat>, b: set<nat>)
    requires forall j :: (j in all <==> j in a || j in b) && !(j in a && j in b)
    ensures |all| == |a| + |b|
  {
    assert all == a + b && a !! b;
  }

  /** The members above `r`. */
  function Above(seats: set<nat>, r: nat): set<nat> { set t | t in seats && t > r }

  /** Numbered seats are handed out one after the other; who does not want a seat, or finds it taken, gets the first
      free one. Then a wanted seat is never left free, and below a seat that nobody wanted all are taken. */
  ghost predicate HandedOut(taken: set<nat>, wanted: set<nat>) {
    && wanted <= taken
    && 0 !in taken
    && forall t, u: nat :: t in taken && t !in wanted && 1 <= u < t ==> u in taken
  }

  /** Whether a seat that nobody wanted is taken is a matter of counting. */
  lemma SeatIsTaken(taken: set<nat>, wanted: set<nat>, r: nat)
    requires HandedOut(taken, wanted) && r >= 1 && r !in wanted
    ensures r in taken <==> |taken| >= r + |Above(wanted, r)|
  {
    var above := Above(wanted, r);
    if r in taken {
      assert UpTo(r) + above <= taken;
      assert |UpTo(r) + above| == r + |above| by {
        assert UpTo(r) !! above;
      }
      SubsetSize(UpTo(r) + above, taken);
    } else {
      assert taken <= UpTo(r - 1) + above;
      assert |UpTo(r - 1) + above| == r - 1 + |above| by {
        assert UpTo(r - 1) !! above;
      }
      SubsetSize(taken, UpTo(r - 1) + above);
    }
  }
}
