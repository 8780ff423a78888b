/** Applying one step again and again. */
module Iteration {

  function Iterate<T>(step: T -> T, x: T, n: nat): T {
    if n == 0 then x else step(Iterate(step, x, n - 1))
  }

  ghost predicate Preserves<T(!new)>(step: T -> T, inv: T -> bool) {
    forall x :: inv(x) ==> inv(step(x))
  }

  /** What one step preserves, any number of steps preserve. */
  lemma {:induction false} IteratePreserves<T(!new)>(step: T -> T, inv: T -> bool, x: T, n: nat)
    requires Preserves(step, inv) && inv(x)
    ensures inv(Iterate(step, x, n))
  {
    if n > 0 {
      IteratePreserves(step, inv, x, n - 1);
    }
  }

  lemma {:induction false} IterateSplit<T>(step: T -> T, x: T, m: nat, n: nat)
    requires m <= n
    ensures Iterate(step, x, n) == Iterate(step, Iterate(step, x, m), n - m)
  {
    if m < n {
      IterateSplit(step, x, m, n - 1);
    }
  }

  /** A step that stands still or lowers a measure stands still after as many steps as the measure. */
  lemma {:induction false} IterateRests<T(!new)>(step: T -> T, measure: T -> nat, x: T, n: nat)
    requires forall y :: step(y) == y || measure(step(y)) < measure(y)
    ensures var y := Iterate(step, x, n); step(y) == y || measure(y) + n <= measure(x)
    ensures measure(x) <= n ==> step(Iterate(step, x, n)) == Iterate(step, x, n)
  {
    if n > 0 {
      IterateRests(step, measure, x, n - 1);
    }
  }

  /** Two steps that agree wherever an invariant of the first holds have the same iterates there. */
  lemma {:induction false} IteratesAgree<T(!new)>(f: T -> T, g: T -> T, inv: T -> bool, x: T, n: nat)
    requires Preserves(f, inv) && inv(x)
    requires forall y :: inv(y) ==> f(y) == g(y)
    ensures Iterate(f, x, n) == Iterate(g, x, n) && inv(Iterate(f, x, n))
  {
    if n > 0 {
      IteratesAgree(f, g, inv, x, n - 1);
    }
  }
}
