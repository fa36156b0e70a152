/** Arithmetic progressions, as both sieves walk them. */
module Progressions {
  import opened Arithmetic

  /** x lies on the progression first, first + step, first + 2 step, ... */
  predicate OnProgression(x: nat, first: nat, step: nat)
    requires 0 < step
  {
    first <= x && (x - first) % step == 0
  }

  /** No term of the progression lies in [lo, hi). */
  ghost predicate NoTermIn(lo: nat, hi: nat, first: nat, step: nat)
    requires 0 < step
  {
    forall x: nat :: lo <= x < hi ==> !OnProgression(x, first, step)
  }

  /** Consecutive terms: nothing strictly between one term and the next. */
  lemma NextTerm(first: nat, step: nat, x: nat)
    requires 0 < step && OnProgression(x, first, step)
    ensures OnProgression(x + step, first, step) && NoTermIn(x + 1, x + step, first, step)
  {
    ModAddMultiple(x - first, 1, step);
    forall y: nat | x < y < x + step
      ensures !OnProgression(y, first, step)
    {
      ModAddMultiple(y - x, (x - first) / step, step);
      DivModIdentity(x - first, step);
      ModSmall(y - x, step);
    }
  }

  /** x is a term of the progression below `next`. */
  ghost predicate Reached(x: nat, first: nat, step: nat, next: nat)
    requires 0 < step
  {
    x < next && OnProgression(x, first, step)
  }
}
