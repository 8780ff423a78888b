/** Lexicographic order of names and of pairs of names, sorting, and ranks. */
module Ordering {

  predicate Less(a: string, b: string) {
    b != "" && (a == "" || a[0] < b[0] || (a[0] == b[0] && Less(a[1..], b[1..])))
  }

  lemma {:induction false} LessIsTotal(a: string, b: string)
    ensures Less(a, b) || Less(b, a) <==> a != b
    ensures !(Less(a, b) && Less(b, a))
  {
    if a != "" && b != "" {
      LessIsTotal(a[1..], b[1..]);
      assert a == [a[0]] + a[1..] && b == [b[0]] + b[1..];
    }
  }

  /** The order is that of a dictionary: by the first character that differs, a shorter text before its continuations. */
  lemma {:induction false} LessIsLexicographic(common: string, x: char, a: string, y: char, b: string)
    ensures Less(common + [x] + a, common + [y] + b) <==> x < y || (x == y && Less(a, b))
    ensures Less(common, common + [x] + a)
  {
    var s, t := common + [x] + a, common + [y] + b;
    if common == "" {
      assert s[1..] == a && t[1..] == b;
    } else {
      var rest := common[1..];
      assert s[1..] == rest + [x] + a && t[1..] == rest + [y] + b;
      LessIsLexicographic(rest, x, a, y, b);
    }
  }

  lemma {:induction false} LessIsTransitive(a: string, b: string, c: string)
    requires Less(a, b) && Less(b, c)
    ensures Less(a, c)
  {
    if a != "" && a[0] == b[0] == c[0] {
      LessIsTransitive(a[1..], b[1..], c[1..]);
    }
  }

  type Pair = (string, string)

  predicate PairLess(p: Pair, q: Pair) {
    if p.0 != q.0 then Less(p.0, q.0) else Less(p.1, q.1)
  }

  /** What sorting needs of an order. */
  ghost predicate StrictOrder<T(!new)>(less: (T, T) -> bool) {
    && (forall a, b :: less(a, b) || less(b, a) <==> a != b)
    && (forall a, b :: !(less(a, b) && less(b, a)))
    && (forall a, b, c :: less(a, b) && less(b, c) ==> less(a, c))
  }

  lemma NamesAreOrdered()
    ensures StrictOrder(Less)
  {
    forall a, b
      ensures Less(a, b) || Less(b, a) <==> a != b
      ensures !(Less(a, b) && Less(b, a))
    {
      LessIsTotal(a, b);
    }
    forall a, b, c | Less(a, b) && Less(b, c)
      ensures Less(a, c)
    {
      LessIsTransitive(a, b, c);
    }
  }

  lemma PairsAreOrdered()
    ensures StrictOrder(PairLess)
  {
    NamesAreOrdered();
    forall p: Pair, q: Pair
      ensures PairLess(p, q) || PairLess(q, p) <==> p != q
      ensures !(PairLess(p, q) && PairLess(q, p))
    {
      LessIsTotal(p.0, q.0);
      LessIsTotal(p.1, q.1);
    }
    forall p: Pair, q: Pair, r: Pair | PairLess(p, q) && PairLess(q, r)
      ensures PairLess(p, r)
    {
      LessIsTotal(p.0, q.0);
      if p.0 == q.0 == r.0 {
        LessIsTransitive(p.1, q.1, r.1);
      } else if p.0 != q.0 && q.0 != r.0 {
        LessIsTransitive(p.0, q.0, r.0);
        LessIsTotal(p.0, r.0);
      }
    }
  }

  /** Strictly ascending, hence without duplicates. */
  predicate Ascending<T>(s: seq<T>, less: (T, T) -> bool) {
    forall i, j :: 0 <= i < j < |s| ==> less(s[i], s[j])
  }

  /** Sorting, here of sequences without duplicates, by insertion. */
  function Insert<T>(x: T, s: seq<T>, less: (T, T) -> bool): seq<T> {
    if s == [] || less(x, s[0]) then [x] + s else [s[0]] + Insert(x, s[1..], less)
  }

  function Sort<T>(s: seq<T>, less: (T, T) -> bool): seq<T> {
    if s == [] then [] else Insert(s[0], Sort(s[1..], less), less)
  }

  predicate Distinct<T(==)>(s: seq<T>) {
    forall i, j :: 0 <= i < j < |s| ==> s[i] != s[j]
  }

  lemma {:induction false} InsertSorts<T(!new)>(x: T, s: seq<T>, less: (T, T) -> bool)
    requires StrictOrder(less) && Ascending(s, less) && x !in s
    ensures Ascending(Insert(x, s, less), less)
    ensures forall y :: y in Insert(x, s, less) <==> y == x || y in s
    ensures |Insert(x, s, less)| == |s| + 1
  {
    if !(s == [] || less(x, s[0])) {
      var rest := Insert(x, s[1..], less);
      InsertSorts(x, s[1..], less);
      assert less(s[0], x);
      forall k | 0 <= k < |rest|
        ensures less(s[0], rest[k])
      {
        assert rest[k] in rest;
        if rest[k] != x {
          var m :| 0 <= m < |s[1..]| && s[1..][m] == rest[k];
        }
      }
    }
  }

  lemma {:induction false} SortSorts<T(!new)>(s: seq<T>, less: (T, T) -> bool)
    requires StrictOrder(less) && Distinct(s)
    ensures Ascending(Sort(s, less), less) && |Sort(s, less)| == |s|
    ensures forall y :: y in Sort(s, less) <==> y in s
  {
    if s != [] {
      SortSorts(s[1..], less);
      InsertSorts(s[0], Sort(s[1..], less), less);
    }
  }

  /** A set has one ascending enumeration only. */
  lemma {:induction false} AscendingUnique<T(!new)>(s: seq<T>, t: seq<T>, less: (T, T) -> bool)
    requires StrictOrder(less) && Ascending(s, less) && Ascending(t, less)
    requires forall x :: x in s <==> x in t
    ensures s == t
  {
    SameEmptiness(s, t);
    if s != [] {
      SameFirst(s, t, less);
      AscendingTail(s, t, less);
      AscendingUnique(s[1..], t[1..], less);
      assert s == [s[0]] + s[1..] && t == [t[0]] + t[1..];
    }
  }

  lemma SameEmptiness<T(!new)>(s: seq<T>, t: seq<T>)
    requires forall x :: x in s <==> x in t
    ensures s == [] <==> t == []
  {
    assert s == [] <==> !exists x :: x in s by { assert s != [] ==> s[|s| - 1] in s; }
    assert t == [] <==> !exists x :: x in t by { assert t != [] ==> t[|t| - 1] in t; }
  }

  lemma SameFirst<T(!new)>(s: seq<T>, t: seq<T>, less: (T, T) -> bool)
    requires StrictOrder(less) && Ascending(s, less) && Ascending(t, less) && s != [] && t != []
    requires forall x :: x in s <==> x in t
    ensures s[0] == t[0]
  {
    assert s[0] in t && t[0] in s;
    var i :| 0 <= i < |t| && t[i] == s[0];
    var j :| 0 <= j < |s| && s[j] == t[0];
  }

  lemma AscendingTail<T(!new)>(s: seq<T>, t: seq<T>, less: (T, T) -> bool)
    requires StrictOrder(less) && Ascending(s, less) && Ascending(t, less) && s != [] && t != [] && s[0] == t[0]
    requires forall x :: x in s <==> x in t
    ensures forall x :: x in s[1..] <==> x in t[1..]
  {
    forall x
      ensures x in s[1..] <==> x in s && x != s[0]
      ensures x in t[1..] <==> x in t && x != t[0]
    {
    }
  }

  /** How many elements of a set precede a name. */
  ghost function Rank(names: set<string>, x: string): nat {
    |Below(names, x)|
  }

  ghost function Below(names: set<string>, x: string): set<string> {
    set y | y in names && Less(y, x)
  }

  function Elements<T(==)>(s: seq<T>): set<T> {
    set x | x in s
  }

  /** Rearranging a sequence without duplicates makes none. */
  lemma PermutationStaysDistinct<T>(s: seq<T>, t: seq<T>)
    requires multiset(s) == multiset(t) && Distinct(s)
    ensures Distinct(t) && forall x :: x in s <==> x in t
  {
    forall x
      ensures x in s <==> x in t
    {
      assert x in s <==> x in multiset(s);
      assert x in t <==> x in multiset(t);
    }
    forall i, j | 0 <= i < j < |t|
      ensures t[i] != t[j]
    {
      if t[i] == t[j] {
        TwoOccurrences(t, i, j);
        AtMostOnce(s, t[i]);
      }
    }
  }

  lemma TwoOccurrences<T>(s: seq<T>, i: nat, j: nat)
    requires i < j < |s| && s[i] == s[j]
    ensures 2 <= multiset(s)[s[i]]
  {
    assert s == s[..i] + [s[i]] + s[i + 1..j] + [s[j]] + s[j + 1..];
  }

  lemma {:induction false} AtMostOnce<T>(s: seq<T>, x: T)
    requires Distinct(s)
    ensures multiset(s)[x] <= 1
  {
    if s != [] {
      assert s == [s[0]] + s[1..];
      AtMostOnce(s[1..], x);
    }
  }

  /** In an ascending enumeration the rank is the index. */
  lemma {:induction false} RankIsIndex(s: seq<string>, names: set<string>, k: nat)
    requires Ascending(s, Less) && k < |s| && names == Elements(s)
    ensures Rank(names, s[k]) == k
  {
    assert Below(names, s[k]) == Elements(s[..k]) by {
      NamesAreOrdered();
      forall y
        ensures y in s && Less(y, s[k]) <==> y in s[..k]
      {
        if y in s && Less(y, s[k]) {
          var i :| 0 <= i < |s| && s[i] == y;
        }
      }
    }
    assert Distinct(s[..k]) by { NamesAreOrdered(); }
    DistinctSize(s[..k]);
  }

  lemma {:induction false} DistinctSize<T>(s: seq<T>)
    requires Distinct(s)
    ensures |Elements(s)| == |s|
  {
    if s != [] {
      var rest := s[1..];
      DistinctSize(rest);
      assert s == [s[0]] + rest && s[0] !in rest;
      assert Elements(s) == Elements(rest) + {s[0]};
    }
  }

  /** Names are ranked as they are ordered. */
  lemma RankMonotone(names: set<string>, x: string, y: string)
    requires x in names && y in names && Less(x, y)
    ensures Rank(names, x) < Rank(names, y)
  {
    NamesAreOrdered();
    assert Below(names, x) + {x} <= Below(names, y);
    SubsetSize(Below(names, x) + {x}, Below(names, y));
  }

  lemma RankBound(names: set<string>, x: string)
    requires x in names
    ensures Rank(names, x) < |names|
  {
    NamesAreOrdered();
    SubsetSize(Below(names, x) + {x}, names);
  }

  lemma {:induction false} SubsetSize<T>(a: set<T>, b: set<T>)
    requires a <= b
    ensures |a| <= |b|
  {
    if a != {} {
      var x :| x in a;
      SubsetSize(a - {x}, b - {x});
    }
  }
}
