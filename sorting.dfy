/** `list.slice().sort(compare)`: a stable sort of a copy, driven by a comparator that returns a
    negative number, zero or a positive number. Section 23.1.3.30 of ECMA-262 (2023) requires the
    sort to be stable, and a stable sort by a consistent comparator has exactly one possible result,
    so insertion sort stands for the engine's algorithm here. */
module Sorting {
  import opened Sequences

  /** A consistent comparator: its sign flips when the arguments are swapped, and "not after" is
      transitive. Together these make "not after" a total preorder. */
  ghost predicate IsComparator<T(!new)>(cmp: (T, T) -> int) {
    && (forall a, b :: cmp(a, b) < 0 <==> cmp(b, a) > 0)
    && (forall a, b, c :: cmp(a, b) <= 0 && cmp(b, c) <= 0 ==> cmp(a, c) <= 0)
  }

  /** Every element is "not after" every later one. */
  ghost predicate SortedBy<T>(s: seq<T>, cmp: (T, T) -> int) {
    forall i, j :: 0 <= i < j < |s| ==> cmp(s[i], s[j]) <= 0
  }

  /** Places `x` after the longest prefix of `s` whose elements do not compare above `x`. */
  function Insert<T>(x: T, s: seq<T>, cmp: (T, T) -> int): (r: seq<T>)
    ensures |r| == |s| + 1
  {
    if s == [] then [x]
    else if cmp(x, s[0]) < 0 then [x] + s
    else [s[0]] + Insert(x, s[1..], cmp)
  }

  /** The stable sort of `s` by `cmp`. */
  function Sort<T>(s: seq<T>, cmp: (T, T) -> int): (r: seq<T>)
    ensures |r| == |s|
  {
    if s == [] then [] else Insert(s[|s| - 1], Sort(s[..|s| - 1], cmp), cmp)
  }

  lemma {:induction false} InsertPermutation<T>(x: T, s: seq<T>, cmp: (T, T) -> int)
    ensures multiset(Insert(x, s, cmp)) == multiset(s) + multiset{x}
  {
    if s == [] {
    } else if cmp(x, s[0]) < 0 {
      assert Insert(x, s, cmp) == [x] + s;
      assert multiset([x] + s) == multiset{x} + multiset(s);
    } else {
      var rest := Insert(x, s[1..], cmp);
      InsertPermutation(x, s[1..], cmp);
      assert Insert(x, s, cmp) == [s[0]] + rest;
      assert multiset([s[0]] + rest) == multiset{s[0]} + multiset(rest);
      SplitFirst(s);
      assert multiset(s) == multiset{s[0]} + multiset(s[1..]);
    }
  }

  /** Sorting only reorders: the result has the same elements with the same multiplicities. */
  lemma {:induction false} SortPermutation<T>(s: seq<T>, cmp: (T, T) -> int)
    ensures multiset(Sort(s, cmp)) == multiset(s)
  {
    if s != [] {
      var init := s[..|s| - 1];
      SortPermutation(init, cmp);
      InsertPermutation(s[|s| - 1], Sort(init, cmp), cmp);
      SplitLast(s);
    }
  }

  /** An element not after `x` and not after any element of `s` is not after any element of the insertion. */
  lemma {:induction false} InsertLowerBound<T>(y: T, x: T, s: seq<T>, cmp: (T, T) -> int)
    requires cmp(y, x) <= 0
    requires forall k :: 0 <= k < |s| ==> cmp(y, s[k]) <= 0
    ensures forall k :: 0 <= k < |s| + 1 ==> cmp(y, Insert(x, s, cmp)[k]) <= 0
  {
    if s != [] && cmp(x, s[0]) >= 0 {
      InsertLowerBound(y, x, s[1..], cmp);
      var r := Insert(x, s, cmp);
      forall k | 0 <= k < |r| ensures cmp(y, r[k]) <= 0 {
        if k > 0 {
          assert r[k] == Insert(x, s[1..], cmp)[k - 1];
        }
      }
    } else if s != [] {
      var r := Insert(x, s, cmp);
      forall k | 0 <= k < |r| ensures cmp(y, r[k]) <= 0 {
        if k > 0 {
          assert r[k] == s[k - 1];
        }
      }
    }
  }

  lemma SortedTail<T>(s: seq<T>, cmp: (T, T) -> int)
    requires s != [] && SortedBy(s, cmp)
    ensures SortedBy(s[1..], cmp)
    ensures forall k :: 0 <= k < |s| - 1 ==> cmp(s[0], s[1..][k]) <= 0
  {
    var t := s[1..];
    forall i, j | 0 <= i < j < |t| ensures cmp(t[i], t[j]) <= 0 {
      assert t[i] == s[i + 1] && t[j] == s[j + 1];
    }
    forall k | 0 <= k < |t| ensures cmp(s[0], t[k]) <= 0 {
      assert t[k] == s[k + 1];
    }
  }

  lemma SortedCons<T>(y: T, s: seq<T>, cmp: (T, T) -> int)
    requires SortedBy(s, cmp)
    requires forall k :: 0 <= k < |s| ==> cmp(y, s[k]) <= 0
    ensures SortedBy([y] + s, cmp)
  {
    var r := [y] + s;
    forall i, j | 0 <= i < j < |r| ensures cmp(r[i], r[j]) <= 0 {
      assert r[j] == s[j - 1];
      if i > 0 {
        assert r[i] == s[i - 1];
      }
    }
  }

  lemma {:induction false} InsertSorted<T(!new)>(x: T, s: seq<T>, cmp: (T, T) -> int)
    requires IsComparator(cmp)
    requires SortedBy(s, cmp)
    ensures SortedBy(Insert(x, s, cmp), cmp)
  {
    if s == [] {
    } else if cmp(x, s[0]) >= 0 {
      SortedTail(s, cmp);
      InsertSorted(x, s[1..], cmp);
      assert cmp(s[0], x) <= 0;
      InsertLowerBound(s[0], x, s[1..], cmp);
      SortedCons(s[0], Insert(x, s[1..], cmp), cmp);
    } else {
      forall k | 0 <= k < |s| ensures cmp(x, s[k]) <= 0 {
        if k > 0 {
          assert cmp(s[0], s[k]) <= 0;
        }
      }
      SortedCons(x, s, cmp);
    }
  }

  /** With a consistent comparator the result is ordered. */
  lemma {:induction false} SortSorted<T(!new)>(s: seq<T>, cmp: (T, T) -> int)
    requires IsComparator(cmp)
    ensures SortedBy(Sort(s, cmp), cmp)
  {
    if s != [] {
      SortSorted(s[..|s| - 1], cmp);
      InsertSorted(s[|s| - 1], Sort(s[..|s| - 1], cmp), cmp);
    }
  }

  /** A comparator that never reports a difference leaves the input order as it is (stability). */
  lemma {:induction false} SortAllTies<T>(s: seq<T>, cmp: (T, T) -> int)
    requires forall i, j :: 0 <= i < |s| && 0 <= j < |s| ==> cmp(s[i], s[j]) == 0
    ensures Sort(s, cmp) == s
  {
    if s != [] {
      var init := s[..|s| - 1];
      SortAllTies(init, cmp);
      InsertAfterTies(s[|s| - 1], init, cmp);
      SplitLast(s);
    }
  }

  lemma {:induction false} InsertAfterTies<T>(x: T, s: seq<T>, cmp: (T, T) -> int)
    requires forall i :: 0 <= i < |s| ==> cmp(x, s[i]) == 0
    ensures Insert(x, s, cmp) == s + [x]
  {
    if s != [] {
      InsertAfterTies(x, s[1..], cmp);
      assert [s[0]] + (s[1..] + [x]) == s + [x];
    }
  }

  /** Two elements given in the wrong order are swapped. */
  lemma SortSwapsPair<T>(a: T, b: T, cmp: (T, T) -> int)
    requires cmp(b, a) < 0
    ensures Sort([a, b], cmp) == [b, a]
  {
    assert [a, b][..1] == [a];
    assert Sort([a], cmp) == [a];
  }

  /** The elements that tie with `e` under `cmp`. */
  function TieClass<T>(cmp: (T, T) -> int, e: T): T -> bool {
    y => cmp(y, e) == 0
  }

  /** Nothing in a sorted `s` ties with an `e` that ties with an `x` placed before all of `s`. */
  lemma BelowHeadNoTies<T(!new)>(x: T, s: seq<T>, cmp: (T, T) -> int, e: T)
    requires IsComparator(cmp)
    requires SortedBy(s, cmp)
    requires s != [] && cmp(x, s[0]) < 0 && cmp(x, e) == 0
    ensures forall k :: 0 <= k < |s| ==> !TieClass(cmp, e)(s[k])
  {
    forall k | 0 <= k < |s| ensures cmp(s[k], e) != 0 {
      if k > 0 {
        assert cmp(s[0], s[k]) <= 0;
      }
      assert cmp(x, s[k]) < 0;
    }
  }

  lemma {:induction false} InsertTieClass<T(!new)>(x: T, s: seq<T>, cmp: (T, T) -> int, e: T)
    requires IsComparator(cmp)
    requires SortedBy(s, cmp)
    ensures Filter(Insert(x, s, cmp), TieClass(cmp, e))
         == Filter(s, TieClass(cmp, e)) + (if cmp(x, e) == 0 then [x] else [])
  {
    if s == [] {
      FilterSingleton(x, TieClass(cmp, e));
    } else if cmp(x, s[0]) >= 0 {
      SortedTail(s, cmp);
      InsertTieClass(x, s[1..], cmp, e);
      InsertAfterHeadTieClass(x, s, cmp, e);
    } else {
      InsertBeforeHeadTieClass(x, s, cmp, e);
    }
  }

  lemma AppendAssoc<T>(a: seq<T>, b: seq<T>, c: seq<T>)
    ensures a + (b + c) == (a + b) + c
  {
  }

  /** The step of `InsertTieClass` where `x` goes after the head. */
  lemma InsertAfterHeadTieClass<T>(x: T, s: seq<T>, cmp: (T, T) -> int, e: T)
    requires s != [] && cmp(x, s[0]) >= 0
    requires Filter(Insert(x, s[1..], cmp), TieClass(cmp, e))
          == Filter(s[1..], TieClass(cmp, e)) + (if cmp(x, e) == 0 then [x] else [])
    ensures Filter(Insert(x, s, cmp), TieClass(cmp, e))
         == Filter(s, TieClass(cmp, e)) + (if cmp(x, e) == 0 then [x] else [])
  {
    var tie := TieClass(cmp, e);
    var rest := Insert(x, s[1..], cmp);
    var head := if tie(s[0]) then [s[0]] else [];
    var xTies := if cmp(x, e) == 0 then [x] else [];
    assert Insert(x, s, cmp) == [s[0]] + rest;
    FilterCons(s[0], rest, tie);
    SplitFirst(s);
    FilterCons(s[0], s[1..], tie);
    AppendAssoc(head, Filter(s[1..], tie), xTies);
  }

  lemma InsertBeforeHeadTieClass<T(!new)>(x: T, s: seq<T>, cmp: (T, T) -> int, e: T)
    requires IsComparator(cmp)
    requires SortedBy(s, cmp)
    requires s != [] && cmp(x, s[0]) < 0
    ensures Filter(Insert(x, s, cmp), TieClass(cmp, e))
         == Filter(s, TieClass(cmp, e)) + (if cmp(x, e) == 0 then [x] else [])
  {
    var tie := TieClass(cmp, e);
    var xTies := if cmp(x, e) == 0 then [x] else [];
    assert Insert(x, s, cmp) == [x] + s;
    assert ([x] + s)[1..] == s;
    assert Filter([x] + s, tie) == xTies + Filter(s, tie);
    if cmp(x, e) == 0 {
      BelowHeadNoTies(x, s, cmp, e);
      FilterKeepsNone(s, tie);
    }
  }

  /** The inductive step of `SortStable`, apart from the comparator's properties. */
  lemma SortStableStep<T>(s: seq<T>, cmp: (T, T) -> int, e: T)
    requires s != []
    requires Filter(Sort(s[..|s| - 1], cmp), TieClass(cmp, e)) == Filter(s[..|s| - 1], TieClass(cmp, e))
    requires Filter(Insert(s[|s| - 1], Sort(s[..|s| - 1], cmp), cmp), TieClass(cmp, e))
          == Filter(Sort(s[..|s| - 1], cmp), TieClass(cmp, e)) + (if cmp(s[|s| - 1], e) == 0 then [s[|s| - 1]] else [])
    ensures Filter(Sort(s, cmp), TieClass(cmp, e)) == Filter(s, TieClass(cmp, e))
  {
    var init, last := s[..|s| - 1], s[|s| - 1];
    var tie := TieClass(cmp, e);
    SplitLast(s);
    FilterAppend(init, [last], tie);
    FilterSingleton(last, tie);
    assert tie(last) == (cmp(last, e) == 0);
  }

  /** Stability: the elements that tie with any `e` keep their relative input order. With
      `SortPermutation` and `SortSorted` this determines the result of any stable sort. */
  lemma {:induction false} SortStable<T(!new)>(s: seq<T>, cmp: (T, T) -> int, e: T)
    requires IsComparator(cmp)
    ensures Filter(Sort(s, cmp), TieClass(cmp, e)) == Filter(s, TieClass(cmp, e))
  {
    if s != [] {
      var init := s[..|s| - 1];
      SortStable(init, cmp, e);
      SortSorted(init, cmp);
      InsertTieClass(s[|s| - 1], Sort(init, cmp), cmp, e);
      SortStableStep(s, cmp, e);
    }
  }

  // ---------------------------------------------------------------- reversal

  /** `s` back to front. */
  function Reverse<T>(s: seq<T>): (r: seq<T>)
    ensures |r| == |s|
    ensures forall i :: 0 <= i < |s| ==> r[i] == s[|s| - 1 - i]
  {
    if s == [] then [] else Reverse(s[1..]) + [s[0]]
  }

  lemma {:induction false} ReversePermutation<T>(s: seq<T>)
    ensures multiset(Reverse(s)) == multiset(s)
  {
    if s != [] {
      ReversePermutation(s[1..]);
      SplitFirst(s);
      assert multiset(s) == multiset{s[0]} + multiset(s[1..]);
    }
  }

  /** No two elements of `s` tie under `cmp` unless they are equal. */
  ghost predicate NoTies<T>(s: seq<T>, cmp: (T, T) -> int) {
    forall i, j :: 0 <= i < |s| && 0 <= j < |s| && cmp(s[i], s[j]) == 0 ==> s[i] == s[j]
  }

  /** `rev` is `cmp` with its sign flipped, the comparator of the opposite direction. */
  ghost predicate Opposite<T(!new)>(cmp: (T, T) -> int, rev: (T, T) -> int) {
    forall a, b :: rev(a, b) == -cmp(a, b)
  }

  /** A sequence sorted by a comparator is, read back to front, sorted by the opposite one. */
  lemma ReverseSorted<T(!new)>(s: seq<T>, cmp: (T, T) -> int, rev: (T, T) -> int)
    requires IsComparator(cmp) && Opposite(cmp, rev)
    requires SortedBy(s, cmp)
    ensures SortedBy(Reverse(s), rev)
  {
    var r := Reverse(s);
    forall i, j | 0 <= i < j < |r| ensures rev(r[i], r[j]) <= 0 {
      var x, y := s[|s| - 1 - i], s[|s| - 1 - j];
      assert cmp(y, x) <= 0;
      assert !(cmp(x, y) < 0);
    }
  }

  /** Ties are a property of the elements only, so a permutation has the same ones. */
  lemma NoTiesPermutation<T>(s: seq<T>, t: seq<T>, cmp: (T, T) -> int)
    requires multiset(s) == multiset(t) && NoTies(s, cmp)
    ensures NoTies(t, cmp)
  {
    forall i, j | 0 <= i < |t| && 0 <= j < |t| && cmp(t[i], t[j]) == 0 ensures t[i] == t[j] {
      assert t[i] in multiset(s) && t[j] in multiset(s);
      var p :| 0 <= p < |s| && s[p] == t[i];
      var q :| 0 <= q < |s| && s[q] == t[j];
    }
  }

  /** Two sorted sequences with the same elements and no ties start with the same element. */
  lemma SortedHeads<T(!new)>(a: seq<T>, b: seq<T>, cmp: (T, T) -> int)
    requires forall x, y :: cmp(x, y) < 0 <==> cmp(y, x) > 0
    requires SortedBy(a, cmp) && SortedBy(b, cmp)
    requires a != [] && multiset(a) == multiset(b) && NoTies(a, cmp)
    ensures b != [] && a[0] == b[0]
  {
    assert a[0] in multiset(b) && b[0] in multiset(a);
    var p :| 0 <= p < |b| && b[p] == a[0];
    var q :| 0 <= q < |a| && a[q] == b[0];
    assert cmp(b[0], a[0]) <= 0 by {
      if p > 0 {
        assert cmp(b[0], b[p]) <= 0;
      }
    }
    assert cmp(a[0], a[q]) <= 0 by {
      if q > 0 {
        assert cmp(a[0], a[q]) <= 0;
      }
    }
  }

  /** Dropping the common head leaves the same elements and no ties. */
  lemma SameTails<T>(a: seq<T>, b: seq<T>, cmp: (T, T) -> int)
    requires a != [] && b != [] && a[0] == b[0]
    requires multiset(a) == multiset(b) && NoTies(a, cmp)
    ensures multiset(a[1..]) == multiset(b[1..]) && NoTies(a[1..], cmp)
  {
    SplitFirst(a);
    SplitFirst(b);
    assert multiset(a) == multiset{a[0]} + multiset(a[1..]);
    assert multiset(b) == multiset{b[0]} + multiset(b[1..]);
    assert multiset(a[1..]) == multiset(a) - multiset{a[0]};
    assert multiset(b[1..]) == multiset(b) - multiset{b[0]};
    forall i, j | 0 <= i < |a[1..]| && 0 <= j < |a[1..]| && cmp(a[1..][i], a[1..][j]) == 0
      ensures a[1..][i] == a[1..][j]
    {
      assert a[1..][i] == a[i + 1] && a[1..][j] == a[j + 1];
    }
  }

  /** Two sequences sorted by the same comparator, holding the same elements with no ties among
      them, are equal: without ties a sorted order is unique. */
  lemma {:induction false} SortedUnique<T(!new)>(a: seq<T>, b: seq<T>, cmp: (T, T) -> int)
    requires forall x, y :: cmp(x, y) < 0 <==> cmp(y, x) > 0
    requires SortedBy(a, cmp) && SortedBy(b, cmp)
    requires multiset(a) == multiset(b) && NoTies(a, cmp)
    ensures a == b
  {
    if a == [] {
      assert |b| == |multiset(b)| == 0;
    } else {
      SortedHeads(a, b, cmp);
      SameTails(a, b, cmp);
      SortedTail(a, cmp);
      SortedTail(b, cmp);
      SortedUnique(a[1..], b[1..], cmp);
      SplitFirst(a);
      SplitFirst(b);
    }
  }

  /** Without ties, sorting by the opposite comparator gives the sorted sequence back to front. */
  lemma SortOpposite<T(!new)>(s: seq<T>, cmp: (T, T) -> int, rev: (T, T) -> int)
    requires IsComparator(cmp) && IsComparator(rev) && Opposite(cmp, rev)
    requires NoTies(s, cmp)
    ensures Sort(s, rev) == Reverse(Sort(s, cmp))
  {
    var down, up := Sort(s, rev), Sort(s, cmp);
    SortSorted(s, rev);
    SortSorted(s, cmp);
    ReverseSorted(up, cmp, rev);
    SortPermutation(s, rev);
    SortPermutation(s, cmp);
    ReversePermutation(up);
    assert NoTies(s, rev);
    NoTiesPermutation(s, down, rev);
    SortedUnique(down, Reverse(up), rev);
  }
}
