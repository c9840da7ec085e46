/** Induction over the steps of a run, once for all the state machines. */
module Runs {

  /** If a step from a good state leads to a good state exactly when the step keeps it good, then all
      states of a run that starts well are good exactly when all its steps keep them so. */
  lemma {:induction false} GoodWhileKept(good: nat -> bool, keeps: nat -> bool, k: nat)
    requires good(0) && forall j: nat :: j < k && good(j) ==> (good(j + 1) <==> keeps(j))
    ensures (forall j: nat :: j <= k ==> good(j)) <==> (forall j: nat :: j < k ==> keeps(j))
  {
    if k > 0 {
      GoodWhileKept(good, keeps, k - 1);
      if good(k - 1) {
        assert good(k) <==> keeps(k - 1);
      }
    }
  }
}
