/** A pass over lines that carries a state: each line is edited in the state before it, and moves the state on. */
module LineScan {

  type Next<!S> = (S, string) -> S
  type Edit<!S> = (S, string) -> string

  function Scan<S>(lines: seq<string>, state: S, next: Next<S>, edit: Edit<S>): (r: seq<string>)
    ensures |r| == |lines|
  {
    if lines == [] then []
    else [edit(state, lines[0])] + Scan(lines[1..], next(state, lines[0]), next, edit)
  }

  /** The state after some lines. */
  function After<S>(lines: seq<string>, state: S, next: Next<S>): S {
    if lines == [] then state else After(lines[1..], next(state, lines[0]), next)
  }

  lemma {:induction false} ScanAt<S>(lines: seq<string>, state: S, next: Next<S>, edit: Edit<S>, i: nat)
    requires i < |lines|
    ensures Scan(lines, state, next, edit)[i] == edit(After(lines[..i], state, next), lines[i])
    decreases i
  {
    if i > 0 {
      ScanAt(lines[1..], next(state, lines[0]), next, edit, i - 1);
      assert lines[..i][1..] == lines[1..][..i - 1];
    }
  }

  lemma {:induction false} ScanAppend<S>(a: seq<string>, b: seq<string>, state: S, next: Next<S>, edit: Edit<S>)
    ensures Scan(a + b, state, next, edit) == Scan(a, state, next, edit) + Scan(b, After(a, state, next), next, edit)
    ensures After(a + b, state, next) == After(b, After(a, state, next), next)
    decreases |a|
  {
    if a == [] {
      assert a + b == b;
    } else {
      assert (a + b)[1..] == a[1..] + b;
      ScanAppend(a[1..], b, next(state, a[0]), next, edit);
    }
  }

  /** One more line. */
  lemma ScanNext<S>(lines: seq<string>, state: S, next: Next<S>, edit: Edit<S>, i: nat)
    requires i < |lines|
    ensures var before := After(lines[..i], state, next);
            && Scan(lines[..i + 1], state, next, edit) == Scan(lines[..i], state, next, edit) + [edit(before, lines[i])]
            && After(lines[..i + 1], state, next) == next(before, lines[i])
  {
    assert lines[..i + 1] == lines[..i] + [lines[i]];
    ScanAppend(lines[..i], [lines[i]], state, next, edit);
  }

  /** Edits that leave a line's effect on the state alone compose line by line. */
  lemma {:induction false} ScanTwice<S(!new)>(lines: seq<string>, state: S, next: Next<S>,
                                              first: Edit<S>, second: Edit<S>, both: Edit<S>)
    requires forall s, l :: next(s, first(s, l)) == next(s, l)
    requires forall s, l :: second(s, first(s, l)) == both(s, l)
    ensures Scan(Scan(lines, state, next, first), state, next, second) == Scan(lines, state, next, both)
    decreases |lines|
  {
    if lines != [] {
      var after := next(state, lines[0]);
      ScanTwice(lines[1..], after, next, first, second, both);
      assert Scan(lines, state, next, first)[1..] == Scan(lines[1..], after, next, first);
    }
  }

  /** What an edit guarantees of a line, the scan guarantees of every line. */
  lemma {:induction false} ScanPreserves<S(!new)>(lines: seq<string>, state: S, next: Next<S>, edit: Edit<S>,
                                                  good: string -> bool)
    requires forall s, l :: good(l) ==> good(edit(s, l))
    requires forall l :: l in lines ==> good(l)
    ensures forall l :: l in Scan(lines, state, next, edit) ==> good(l)
    decreases |lines|
  {
    if lines != [] {
      assert lines[0] in lines && forall l :: l in lines[1..] ==> l in lines;
      ScanPreserves(lines[1..], next(state, lines[0]), next, edit, good);
    }
  }

  lemma {:induction false} ScanNothing<S(!new)>(lines: seq<string>, state: S, next: Next<S>, edit: Edit<S>)
    requires forall s, l :: edit(s, l) == l
    ensures Scan(lines, state, next, edit) == lines
    decreases |lines|
  {
    if lines != [] {
      ScanNothing(lines[1..], next(state, lines[0]), next, edit);
    }
  }
}
