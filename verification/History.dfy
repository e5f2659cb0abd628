/** Facts about a run that hold from some moment on, until something ends them. */
module History {

  /** Something started before moment `n`, and nothing has ended it since. */
  ghost predicate Since(starts: nat -> bool, ends: nat -> bool, n: nat) {
    exists k: nat :: k < n && starts(k) && QuietBetween(ends, k, n)
  }

  ghost predicate QuietBetween(ends: nat -> bool, k: nat, n: nat) {
    forall j: nat :: k < j < n ==> !ends(j)
  }

  /** For what nothing ends. */
  ghost function Never(): nat -> bool {
    (_: nat) => false
  }

  /** What moment `n` itself adds: a start counts even if it also ends what came before. */
  lemma SinceStep(starts: nat -> bool, ends: nat -> bool, n: nat)
    ensures Since(starts, ends, n + 1) <==> starts(n) || (Since(starts, ends, n) && !ends(n))
  {
    if k: nat :| k < n + 1 && starts(k) && QuietBetween(ends, k, n + 1) {
      assert k < n ==> QuietBetween(ends, k, n) && !ends(n);
    }
    if k: nat :| k < n && starts(k) && QuietBetween(ends, k, n) {
      assert !ends(n) ==> QuietBetween(ends, k, n + 1);
    }
    assert QuietBetween(ends, n, n + 1);
  }

  /** What starts and ends by the same rule, step by step, is the same. */
  lemma {:induction false} FollowsSince(holds: nat -> bool, starts: nat -> bool, ends: nat -> bool, n: nat)
    requires !holds(0)
    requires forall k: nat :: k < n ==> (holds(k + 1) <==> starts(k) || (holds(k) && !ends(k)))
    ensures holds(n) <==> Since(starts, ends, n)
  {
    if n > 0 {
      FollowsSince(holds, starts, ends, n - 1);
      SinceStep(starts, ends, n - 1);
    }
  }

  /** What starts only by the rule, and may end by it or earlier, implies it. */
  lemma {:induction false} ImpliesSince(holds: nat -> bool, starts: nat -> bool, ends: nat -> bool, n: nat)
    requires !holds(0)
    requires forall k: nat :: k < n && holds(k + 1) ==> starts(k) || (holds(k) && !ends(k))
    ensures holds(n) ==> Since(starts, ends, n)
  {
    if n > 0 {
      ImpliesSince(holds, starts, ends, n - 1);
      SinceStep(starts, ends, n - 1);
    }
  }
}
