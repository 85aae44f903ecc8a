/**
 * Order-preserving filtering (a Python list or dict comprehension with an
 * `if`) and sorting (Python's `sorted` and `list.sort` with a key), on
 * sequences.
 */
module Seqs {

  // ---------------------------------------------------------------------------
  // Filtering
  // ---------------------------------------------------------------------------

  /** `r` is `s` with some elements left out, the rest in their original order. */
  predicate IsSubsequence<T(==)>(r: seq<T>, s: seq<T>)
    decreases |s|
  {
    if |r| == 0 then true
    else if |s| == 0 then false
    else if r[0] == s[0] then IsSubsequence(r[1..], s[1..])
    else IsSubsequence(r, s[1..])
  }

  /** `[x for x in s if keep(x)]`. */
  function Filter<T(!new,==)>(s: seq<T>, keep: T -> bool): (r: seq<T>)
    ensures forall x :: x in r <==> x in s && keep(x)
    ensures forall x :: multiset(r)[x] == if keep(x) then multiset(s)[x] else 0
    ensures IsSubsequence(r, s)
    ensures |r| <= |s|
    decreases |s|
  {
    if |s| == 0 then []
    else
      FilterHead(s, keep, Filter(s[1..], keep));
      if keep(s[0]) then [s[0]] + Filter(s[1..], keep) else Filter(s[1..], keep)
  }

  /** The step of `Filter`'s proof: how the first element and the filtered rest combine. */
  lemma FilterHead<T(!new)>(s: seq<T>, keep: T -> bool, rest: seq<T>)
    requires |s| > 0
    requires forall x :: x in rest <==> x in s[1..] && keep(x)
    requires forall x :: multiset(rest)[x] == if keep(x) then multiset(s[1..])[x] else 0
    requires IsSubsequence(rest, s[1..])
    ensures var r := if keep(s[0]) then [s[0]] + rest else rest;
      && (forall x :: x in r <==> x in s && keep(x))
      && (forall x :: multiset(r)[x] == if keep(x) then multiset(s)[x] else 0)
      && IsSubsequence(r, s)
  {
    assert s == [s[0]] + s[1..];
    if keep(s[0]) {
      assert ([s[0]] + rest)[1..] == rest;
    } else if |rest| > 0 {
      assert rest[0] in rest;
    }
  }

  /** Filtering twice keeps exactly what both conditions keep. */
  lemma {:induction false} FilterFilter<T(!new)>(s: seq<T>, p: T -> bool, q: T -> bool, both: T -> bool)
    requires forall x :: both(x) == (p(x) && q(x))
    ensures Filter(Filter(s, p), q) == Filter(s, both)
    decreases |s|
  {
    if |s| > 0 {
      FilterFilter(s[1..], p, q, both);
      if p(s[0]) {
        assert ([s[0]] + Filter(s[1..], p))[1..] == Filter(s[1..], p);
      }
    }
  }

  lemma DropAppend<T>(s: seq<T>, x: T)
    requires |s| > 0
    ensures (s + [x])[0] == s[0] && (s + [x])[1..] == s[1..] + [x]
  {
  }

  lemma TakeSnoc<T>(s: seq<T>, i: nat)
    requires i < |s|
    ensures s[..i + 1] == s[..i] + [s[i]]
  {
  }

  /** Filtering a sequence extended by one element. */
  lemma {:induction false} FilterAppend<T(!new)>(s: seq<T>, x: T, keep: T -> bool)
    ensures Filter(s + [x], keep) == Filter(s, keep) + (if keep(x) then [x] else [])
    decreases |s|
  {
    if |s| == 0 {
      assert [x][1..] == [];
    } else {
      FilterAppend(s[1..], x, keep);
      DropAppend(s, x);
      FilterAppendStep(s, s + [x], keep, if keep(x) then [x] else []);
    }
  }

  /** Filtering all but the last element, then the last element. */
  lemma FilterInitLast<T(!new)>(s: seq<T>, keep: T -> bool)
    requires |s| > 0
    ensures Filter(s, keep) == Filter(s[..|s| - 1], keep) + (if keep(s[|s| - 1]) then [s[|s| - 1]] else [])
  {
    InitLast(s);
    FilterAppend(s[..|s| - 1], s[|s| - 1], keep);
  }

  /** The step of `FilterAppend`: `t` is `s` with one more element at the end. */
  lemma FilterAppendStep<T(!new)>(s: seq<T>, t: seq<T>, keep: T -> bool, tail: seq<T>)
    requires |s| > 0 && |t| > 0 && t[0] == s[0]
    requires Filter(t[1..], keep) == Filter(s[1..], keep) + tail
    ensures Filter(t, keep) == Filter(s, keep) + tail
  {
    FilterCons(s, keep);
    FilterCons(t, keep);
    AppendAssoc(if keep(s[0]) then [s[0]] else [], Filter(s[1..], keep), tail);
  }

  lemma InitLast<T>(s: seq<T>)
    requires |s| > 0
    ensures s[..|s| - 1] + [s[|s| - 1]] == s
  {
  }

  lemma AppendAssoc<T>(a: seq<T>, b: seq<T>, c: seq<T>)
    ensures a + (b + c) == a + b + c
  {
  }

  /** `Filter` on a non-empty sequence, unfolded once. */
  lemma FilterCons<T(!new)>(s: seq<T>, keep: T -> bool)
    requires |s| > 0
    ensures Filter(s, keep) == (if keep(s[0]) then [s[0]] else []) + Filter(s[1..], keep)
  {
    if !keep(s[0]) {
      assert [] + Filter(s[1..], keep) == Filter(s[1..], keep);
    }
  }

  /** Conditions that agree on every element keep the same elements. */
  lemma {:induction false} FilterCongruent<T(!new)>(s: seq<T>, p: T -> bool, q: T -> bool)
    requires forall x :: x in s ==> p(x) == q(x)
    ensures Filter(s, p) == Filter(s, q)
    decreases |s|
  {
    if |s| > 0 {
      assert forall x :: x in s[1..] ==> x in s;
      FilterCongruent(s[1..], p, q);
    }
  }

  /** A condition that holds everywhere keeps the whole sequence. */
  lemma {:induction false} FilterAll<T(!new)>(s: seq<T>, keep: T -> bool)
    requires forall x :: x in s ==> keep(x)
    ensures Filter(s, keep) == s
    decreases |s|
  {
    if |s| > 0 {
      assert forall x :: x in s[1..] ==> x in s;
      FilterAll(s[1..], keep);
      FilterCons(s, keep);
      ConsTail(s);
    }
  }

  /** `s.index(x)`: the position of the first occurrence of `x`. */
  function IndexOf<T(==)>(s: seq<T>, x: T): (i: nat)
    requires x in s
    ensures i < |s| && s[i] == x
    ensures forall j :: 0 <= j < i ==> s[j] != x
  {
    if s[0] == x then 0 else 1 + IndexOf(s[1..], x)
  }

  /** No element occurs twice. */
  predicate NoDuplicates<T(==)>(s: seq<T>) {
    forall i, j :: 0 <= i < j < |s| ==> s[i] != s[j]
  }

  lemma {:induction false} NoDuplicatesCount<T>(s: seq<T>)
    requires NoDuplicates(s)
    ensures forall x :: multiset(s)[x] <= 1
    decreases |s|
  {
    if |s| > 0 {
      var init, last := s[..|s| - 1], s[|s| - 1];
      assert s == init + [last];
      NoDuplicatesCount(init);
      assert last !in init;
    }
  }

  lemma {:induction false} CountNoDuplicates<T>(s: seq<T>)
    requires forall x :: multiset(s)[x] <= 1
    ensures NoDuplicates(s)
    decreases |s|
  {
    if |s| > 0 {
      var init, last := s[..|s| - 1], s[|s| - 1];
      assert s == init + [last];
      assert forall x :: multiset(init)[x] <= multiset(s)[x];
      CountNoDuplicates(init);
      assert multiset(init)[last] == 0;
      forall i | 0 <= i < |init| ensures init[i] != last {
        assert init[i] in multiset(init);
      }
    }
  }

  /** Rearranging a sequence cannot create or remove duplicates. */
  lemma NoDuplicatesPermutation<T>(a: seq<T>, b: seq<T>)
    requires multiset(a) == multiset(b) && NoDuplicates(a)
    ensures NoDuplicates(b)
  {
    NoDuplicatesCount(a);
    CountNoDuplicates(b);
  }

  // ---------------------------------------------------------------------------
  // Sorting
  // ---------------------------------------------------------------------------

  /** What Python needs of a sort key: any two keys compare, and consistently. */
  ghost predicate TotalPreorder<T(!new)>(le: (T, T) -> bool) {
    && (forall a, b :: le(a, b) || le(b, a))
    && (forall a, b, c :: le(a, b) && le(b, c) ==> le(a, c))
  }

  predicate SortedBy<T>(s: seq<T>, le: (T, T) -> bool) {
    forall i, j :: 0 <= i < j < |s| ==> le(s[i], s[j])
  }

  /**
   * Inserts `x` into sorted `s` after the last element not above it, so that
   * elements with equal keys keep their input order.
   */
  function Insert<T(!new)>(x: T, s: seq<T>, le: (T, T) -> bool): (r: seq<T>)
    requires TotalPreorder(le)
    requires SortedBy(s, le)
    ensures multiset(r) == multiset(s) + multiset{x}
    ensures SortedBy(r, le)
    decreases |s|
  {
    if |s| == 0 then [x]
    else
      var last := s[|s| - 1];
      var init := s[..|s| - 1];
      assert s == init + [last];
      if le(last, x) then
        s + [x]
      else
        var r := Insert(x, init, le);
        assert forall y :: y in r ==> le(y, last) by {
          forall y | y in r ensures le(y, last) {
            assert y in multiset(r);
            if y != x {
              assert y in multiset(init);
              assert y in init;
            }
          }
        }
        r + [last]
  }

  /**
   * An insertion sort standing for Python's `sorted(s, key=...)`: a sorted
   * rearrangement. Python's sort is also stable; that is not stated here.
   */
  function InsertionSort<T(!new)>(s: seq<T>, le: (T, T) -> bool): (r: seq<T>)
    requires TotalPreorder(le)
    ensures multiset(r) == multiset(s)
    ensures SortedBy(r, le)
    decreases |s|
  {
    if |s| == 0 then []
    else
      assert s == s[..|s| - 1] + [s[|s| - 1]];
      Insert(s[|s| - 1], InsertionSort(s[..|s| - 1], le), le)
  }

  lemma SortedConcat<T>(a: seq<T>, b: seq<T>, le: (T, T) -> bool)
    requires SortedBy(a, le) && SortedBy(b, le)
    requires forall x, y :: x in a && y in b ==> le(x, y)
    ensures SortedBy(a + b, le)
  {
    var c := a + b;
    forall i, j | 0 <= i < j < |c| ensures le(c[i], c[j]) {
      if j < |a| {
        assert c[i] == a[i] && c[j] == a[j];
      } else if i >= |a| {
        assert c[i] == b[i - |a|] && c[j] == b[j - |a|];
      } else {
        assert c[i] == a[i] && c[j] == b[j - |a|];
      }
    }
  }

  lemma MultisetOfTail<T>(s: seq<T>)
    requires |s| > 0
    ensures multiset(s[1..]) == multiset(s) - multiset{s[0]}
  {
    assert s == [s[0]] + s[1..];
  }

  /**
   * When the order separates all elements of a collection, the collection
   * has just one sorted arrangement.
   */
  lemma {:induction false} SortedUnique<T(!new)>(a: seq<T>, b: seq<T>, le: (T, T) -> bool)
    requires multiset(a) == multiset(b)
    requires SortedBy(a, le) && SortedBy(b, le)
    requires forall x, y :: x in a && y in a && le(x, y) && le(y, x) ==> x == y
    ensures a == b
    decreases |a|
  {
    assert |a| == |multiset(a)| == |multiset(b)| == |b|;
    if |a| > 0 {
      SameHead(a, b, le);
      MultisetOfTail(a);
      MultisetOfTail(b);
      SortedTail(a, le);
      SortedTail(b, le);
      assert forall x :: x in a[1..] ==> x in a;
      SortedUnique(a[1..], b[1..], le);
      SameHeadTail(a, b);
    }
  }

  /**
   * A sorted rearrangement of `s` is what the insertion sort returns, when the
   * order leaves no ties among the elements.
   */
  lemma SortedIsSort<T(!new)>(a: seq<T>, s: seq<T>, le: (T, T) -> bool)
    requires TotalPreorder(le)
    requires multiset(a) == multiset(s) && SortedBy(a, le)
    requires forall x, y :: x in a && y in a && le(x, y) && le(y, x) ==> x == y
    ensures a == InsertionSort(s, le)
  {
    SortedUnique(a, InsertionSort(s, le), le);
  }

  lemma SortedTail<T>(a: seq<T>, le: (T, T) -> bool)
    requires |a| > 0 && SortedBy(a, le)
    ensures SortedBy(a[1..], le)
  {
    forall i, j | 0 <= i < j < |a| - 1 ensures le(a[1..][i], a[1..][j]) {
      assert a[1..][i] == a[i + 1] && a[1..][j] == a[j + 1];
    }
  }

  lemma ConsTail<T>(s: seq<T>)
    requires |s| > 0
    ensures s == [s[0]] + s[1..]
  {
  }

  lemma SameHeadTail<T>(a: seq<T>, b: seq<T>)
    requires |a| > 0 && |b| > 0 && a[0] == b[0] && a[1..] == b[1..]
    ensures a == b
  {
    ConsTail(a);
    ConsTail(b);
  }

  lemma SameHead<T(!new)>(a: seq<T>, b: seq<T>, le: (T, T) -> bool)
    requires |a| > 0 && multiset(a) == multiset(b)
    requires SortedBy(a, le) && SortedBy(b, le)
    requires forall x, y :: x in a && y in a && le(x, y) && le(y, x) ==> x == y
    ensures |b| > 0 && a[0] == b[0]
  {
    assert a[0] in multiset(b);
    assert b[0] in multiset(a);
    var i :| 0 <= i < |b| && b[i] == a[0];
    var j :| 0 <= j < |a| && a[j] == b[0];
    if i > 0 && j > 0 {
      assert le(b[0], a[0]) && le(a[0], b[0]);
    }
  }
}
