/** Counting sets of numbers. */
module Counting {
  /** A set of n numbers below n is all of them. */
  lemma {:induction false} AllBelow(s: set<nat>, n: nat)
    requires forall x <- s :: x < n
    ensures |s| <= n
    ensures |s| == n <==> forall x :: 0 <= x < n ==> x in s
    decreases n
  {
    if n > 0 {
      var t := s - {n - 1};
      AllBelow(t, n - 1);
      if n - 1 in s {
        assert s == t + {n - 1};
      } else {
        assert s == t;
      }
    } else {
      assert s == {};
    }
  }
}
