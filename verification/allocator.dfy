/** Handing out the smallest free integers from a base upward. */
module Allocator {
  import opened Ordering

  /** The used integers at or above a point: what a scan from there can still meet. */
  ghost function Ahead(used: set<int>, p: int): set<int> {
    set u | u in used && p <= u
  }

  /** The smallest free integer from p on. */
  function NextFree(used: set<int>, p: int): (q: int)
    ensures p <= q && q !in used
    ensures forall x :: p <= x < q ==> x in used
    decreases |Ahead(used, p)|
  {
    if p in used then
      AheadShrinks(used, p);
      NextFree(used, p + 1)
    else p
  }

  lemma AheadShrinks(used: set<int>, p: int)
    requires p in used
    ensures |Ahead(used, p)| == |Ahead(used, p + 1)| + 1
  {
    assert Ahead(used, p) == Ahead(used, p + 1) + {p};
  }

  /** The k-th smallest free integer from base on, counting from 0. */
  function NthFree(used: set<int>, base: int, k: nat): int {
    if k == 0 then NextFree(used, base) else NextFree(used, NthFree(used, base, k - 1) + 1)
  }

  /** Each is free, and larger than the one before. */
  lemma NthFreeNext(used: set<int>, base: int, k: nat)
    ensures NthFree(used, base, k) !in used
    ensures if k == 0 then base <= NthFree(used, base, k) else NthFree(used, base, k - 1) < NthFree(used, base, k)
  {
  }

  /** Allocations come in order: each is free, at or above the base, and larger than all before it. */
  lemma {:induction false} NthFreeAscends(used: set<int>, base: int, j: nat, k: nat)
    requires j <= k
    ensures base <= NthFree(used, base, j) <= NthFree(used, base, k) && NthFree(used, base, k) !in used
    ensures j < k ==> NthFree(used, base, j) < NthFree(used, base, k)
  {
    var nth := Allocation(used, base);
    forall i: nat
      ensures Rises(nth, i)
    {
      NthFreeNext(used, base, i + 1);
    }
    RisesAlong(nth, 0, j);
    RisesAlong(nth, j, k);
    NthFreeNext(used, base, 0);
    NthFreeNext(used, base, k);
  }

  function Allocation(used: set<int>, base: int): nat -> int {
    (k: nat) => NthFree(used, base, k)
  }

  predicate Rises(f: nat -> int, i: nat) {
    f(i) < f(i + 1)
  }

  lemma {:induction false} RisesAlong(f: nat -> int, j: nat, k: nat)
    requires j <= k && forall i: nat :: Rises(f, i)
    ensures if j < k then f(j) < f(k) else f(j) == f(k)
    decreases k
  {
    if j < k {
      RisesAlong(f, j, k - 1);
      assert Rises(f, k - 1);
    }
  }

  /** No free integer is passed over. */
  lemma {:induction false} NthFreeIsDense(used: set<int>, base: int, k: nat, x: int)
    requires base <= x < NthFree(used, base, k) && x !in used
    ensures exists j: nat :: j < k && NthFree(used, base, j) == x
  {
    if k > 0 {
      var last := NthFree(used, base, k - 1);
      if x < last {
        NthFreeIsDense(used, base, k - 1, x);
      } else {
        assert x == last;
      }
    }
  }

  /** The k-th free integer lies at most as many used ones beyond base + k. */
  lemma {:induction false} NthFreeBound(used: set<int>, base: int, k: nat)
    ensures NthFree(used, base, k) + |Ahead(used, NthFree(used, base, k))| <= base + k + |Ahead(used, base)|
  {
    if k == 0 {
      NextFreeBound(used, base);
    } else {
      var last := NthFree(used, base, k - 1);
      NthFreeBound(used, base, k - 1);
      NthFreeAscends(used, base, k - 1, k - 1);
      AheadStays(used, last);
      NextFreeBound(used, last + 1);
    }
  }

  lemma AheadStays(used: set<int>, p: int)
    requires p !in used
    ensures |Ahead(used, p)| == |Ahead(used, p + 1)|
  {
    assert Ahead(used, p) == Ahead(used, p + 1);
  }

  lemma {:induction false} NextFreeBound(used: set<int>, p: int)
    ensures var q := NextFree(used, p); q + |Ahead(used, q)| == p + |Ahead(used, p)|
    decreases |Ahead(used, p)|
  {
    if p in used {
      AheadShrinks(used, p);
      NextFreeBound(used, p + 1);
    }
  }

  /** Among n slots for k+1 newcomers and the used ones, everything fits into [base, base+n). */
  lemma FitsInto(used: set<int>, base: int, k: nat, n: nat)
    requires k + |used| < n
    ensures base <= NthFree(used, base, k) < base + n
  {
    NthFreeAscends(used, base, k, k);
    NthFreeBound(used, base, k);
    SubsetSize(Ahead(used, base), used);
  }
}
