/**
 Definitions shared by several modules.
 */
module Common {

  datatype Option<T> = None | Some(value: T)

  // A set of numbers from 0 below n has at most n elements.
  lemma {:induction false} BelowSize(s: set<int>, n: nat)
    requires forall i :: i in s ==> 0 <= i < n
    ensures |s| <= n
  {
    if n == 0 {
      assert forall i :: i !in s;
    } else {
      BelowSize(s - {n - 1}, n - 1);
    }
  }
}
