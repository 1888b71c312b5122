/**
 * `list.sort()` followed by `list.reverse()`, as `add_course` applies them to
 * a student's course list. The library sort is modelled by an insertion sort;
 * AscendingPermutationUnique shows that every correct sort yields the same
 * list, so the choice of algorithm does not matter.
 */
module Sorting {
  import opened Order

  /** Non-decreasing in Python's tuple order. */
  predicate Ascending(s: seq<Enrollment>)
  {
    forall i, j :: 0 <= i < j < |s| ==> Le(s[i], s[j])
  }

  /** Non-increasing in Python's tuple order. */
  predicate Descending(s: seq<Enrollment>)
  {
    forall i, j :: 0 <= i < j < |s| ==> Le(s[j], s[i])
  }

  /** Puts `x` in front of the first element it does not exceed. */
  function Insert(x: Enrollment, s: seq<Enrollment>): seq<Enrollment>
  {
    if s == [] then [x]
    else if Le(x, s[0]) then [x] + s
    else [s[0]] + Insert(x, s[1..])
  }

  /** The list `list.sort()` leaves. */
  function SortAscending(s: seq<Enrollment>): seq<Enrollment>
  {
    if s == [] then [] else Insert(s[0], SortAscending(s[1..]))
  }

  /** The list `list.reverse()` leaves. */
  function Reversed(s: seq<Enrollment>): (r: seq<Enrollment>)
    ensures |r| == |s|
    ensures forall i :: 0 <= i < |s| ==> r[i] == s[|s| - 1 - i]
    ensures multiset(r) == multiset(s)
  {
    if s == [] then [] else
      assert s == [s[0]] + s[1..];
      Reversed(s[1..]) + [s[0]]
  }

  lemma {:induction false} InsertAscending(x: Enrollment, s: seq<Enrollment>)
    requires Ascending(s)
    ensures multiset(Insert(x, s)) == multiset(s) + multiset{x}
    ensures Ascending(Insert(x, s))
  {
    if s == [] {
    } else if Le(x, s[0]) {
      var r := [x] + s;
      forall i, j | 0 <= i < j < |r| ensures Le(r[i], r[j]) {
        if i == 0 && j > 1 {
          LeTransitive(x, s[0], s[j - 1]);
        }
      }
    } else {
      LeTotal(x, s[0]);
      var t := Insert(x, s[1..]);
      InsertAscending(x, s[1..]);
      assert s == [s[0]] + s[1..];
      var r := [s[0]] + t;
      forall i, j | 0 <= i < j < |r| ensures Le(r[i], r[j]) {
        if i == 0 {
          assert r[j] in multiset(t);
          if r[j] != x {
            assert r[j] in s[1..];
          }
        }
      }
    }
  }

  lemma {:induction false} SortAscendingCorrect(s: seq<Enrollment>)
    ensures multiset(SortAscending(s)) == multiset(s)
    ensures Ascending(SortAscending(s))
  {
    if s != [] {
      SortAscendingCorrect(s[1..]);
      InsertAscending(s[0], SortAscending(s[1..]));
      assert s == [s[0]] + s[1..];
    }
  }

  lemma ReversedAscending(s: seq<Enrollment>)
    requires Ascending(s)
    ensures Descending(Reversed(s))
  {
  }

  /**
   * `sort()` then `reverse()` leaves a non-increasing permutation of its
   * input, whatever order the input was in.
   */
  lemma SortThenReverse(s: seq<Enrollment>)
    ensures multiset(Reversed(SortAscending(s))) == multiset(s)
    ensures Descending(Reversed(SortAscending(s)))
  {
    SortAscendingCorrect(s);
    ReversedAscending(SortAscending(s));
  }

  /** The first element of an ascending list is at most every element of it. */
  lemma AscendingHeadLeast(s: seq<Enrollment>, x: Enrollment)
    requires Ascending(s) && x in s
    ensures Le(s[0], x)
  {
    var k :| 0 <= k < |s| && s[k] == x;
    if k == 0 {
      LeReflexive(x);
    }
  }

  lemma TailMultiset(s: seq<Enrollment>)
    requires s != []
    ensures multiset(s[1..]) == multiset(s) - multiset{s[0]}
  {
    assert s == [s[0]] + s[1..];
  }

  /**
   * Two ascending lists with the same elements are equal: the sorted order of
   * a list is unique, so any correct implementation of `list.sort()` (Python
   * uses Timsort) produces exactly SortAscending's result.
   */
  lemma {:induction false} AscendingPermutationUnique(a: seq<Enrollment>, b: seq<Enrollment>)
    requires Ascending(a) && Ascending(b)
    requires multiset(a) == multiset(b)
    ensures a == b
  {
    if a == [] {
      assert |b| == |multiset(b)| == 0;
    } else {
      assert |b| == |multiset(b)| == |multiset(a)| == |a|;
      assert a[0] in multiset(b) && b[0] in multiset(a);
      AscendingHeadLeast(b, a[0]);
      AscendingHeadLeast(a, b[0]);
      LeAntisymmetric(a[0], b[0]);
      TailMultiset(a);
      TailMultiset(b);
      AscendingPermutationUnique(a[1..], b[1..]);
      assert a == [a[0]] + a[1..] && b == [b[0]] + b[1..];
    }
  }
}
