/** Finite counting: the pigeonhole principle in the two forms the proofs need. */
module Counting {

  lemma {:induction false} BelowBound(s: set<int>, bound: nat)
    requires forall x :: x in s ==> 0 <= x < bound
    ensures |s| <= bound
  {
    if bound == 0 {
      assert forall x :: x !in s;
      assert s == {};
    } else {
      BelowBound(s - {bound - 1}, bound - 1);
      assert |s| <= |s - {bound - 1}| + 1;
    }
  }

  lemma {:induction false} ImageSize(n: nat, f: int -> int)
    requires forall i, j :: 0 <= i < j < n ==> f(i) != f(j)
    ensures |set i | 0 <= i < n :: f(i)| == n
  {
    if n == 0 {
      assert (set i | 0 <= i < n :: f(i)) == {};
    } else {
      ImageSize(n - 1, f);
      assert (set i | 0 <= i < n :: f(i)) == (set i | 0 <= i < n - 1 :: f(i)) + {f(n - 1)};
    }
  }

  /** An injective function from the first `n` numbers below `bound` needs `n <= bound`. */
  lemma InjectiveCount(n: nat, f: int -> int, bound: nat)
    requires forall i :: 0 <= i < n ==> 0 <= f(i) < bound
    requires forall i, j :: 0 <= i < j < n ==> f(i) != f(j)
    ensures n <= bound
  {
    ImageSize(n, f);
    BelowBound(set i | 0 <= i < n :: f(i), bound);
  }
}
