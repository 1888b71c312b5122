/**
 * The inner loop of `del_dups`: scan a course list in order and keep the
 * first entry for each course name. Dedup is the specification, DedupList the
 * loop itself; the lemmas say what the kept list is and why, on a list that
 * `add_course` left in descending order, the kept grade is the highest one.
 */
module Deduplication {
  import opened Order
  import opened Sorting
  import opened Wrappers

  /** The course names of a list, in order (the `seen` list of the loop). */
  function Names(s: seq<Enrollment>): seq<string>
  {
    seq(|s|, i requires 0 <= i < |s| => s[i].0)
  }

  /** Each course name occurs at most once. */
  predicate NoDupCourses(s: seq<Enrollment>)
  {
    forall i, j :: 0 <= i < j < |s| ==> s[i].0 != s[j].0
  }

  /** No `(course, grade)` pair occurs twice. */
  predicate NoDupPairs(s: seq<Enrollment>)
  {
    forall x :: x in s ==> multiset(s)[x] == 1
  }

  /** `a` is `b` with some entries removed and the rest in their order. */
  predicate IsSubsequence(a: seq<Enrollment>, b: seq<Enrollment>)
    decreases |b|
  {
    if a == [] then true
    else if b == [] then false
    else (a[|a| - 1] == b[|b| - 1] && IsSubsequence(a[..|a| - 1], b[..|b| - 1]))
         || IsSubsequence(a, b[..|b| - 1])
  }

  /** The grade of the first entry for `course`, if any. */
  function FirstGrade(s: seq<Enrollment>, course: string): Option<int>
  {
    if s == [] then None
    else if s[0].0 == course then Some(s[0].1)
    else FirstGrade(s[1..], course)
  }

  /**
   * What the loop leaves after scanning `s`: the entries of `s` whose course
   * name has not been kept before, in their order.
   */
  function Dedup(s: seq<Enrollment>): seq<Enrollment>
  {
    if s == [] then []
    else
      var kept := Dedup(s[..|s| - 1]);
      var last := s[|s| - 1];
      if last.0 in Names(kept) then kept else kept + [last]
  }

  /** The loop of `del_dups` over one student's list, with its `seen` list. */
  method DedupList(values: seq<Enrollment>) returns (unique: seq<Enrollment>)
    ensures unique == Dedup(values)
  {
    unique := [];
    var seen: seq<string> := [];
    for k := 0 to |values|
      invariant unique == Dedup(values[..k])
      invariant seen == Names(unique)
    {
      var (course, grade) := values[k];
      assert values[..k + 1][..k] == values[..k];
      if course !in seen {
        unique := unique + [(course, grade)];
        seen := seen + [course];
      }
    }
    assert values[..|values|] == values;
  }

  lemma {:induction false} FirstGradeAbsent(s: seq<Enrollment>, course: string)
    ensures FirstGrade(s, course).None? <==> course !in Names(s)
  {
    if s != [] {
      FirstGradeAbsent(s[1..], course);
      assert Names(s) == [s[0].0] + Names(s[1..]);
    }
  }

  lemma {:induction false} FirstGradeAppend(s: seq<Enrollment>, x: Enrollment, course: string)
    ensures FirstGrade(s + [x], course)
         == if FirstGrade(s, course).Some? then FirstGrade(s, course)
            else if x.0 == course then Some(x.1) else None
  {
    if s != [] {
      assert (s + [x])[1..] == s[1..] + [x];
      FirstGradeAppend(s[1..], x, course);
    }
  }

  /** The first grade for a course is recorded in the list together with that course. */
  lemma {:induction false} FirstGradeRecorded(s: seq<Enrollment>, course: string)
    requires FirstGrade(s, course).Some?
    ensures (course, FirstGrade(s, course).value) in s
  {
    if s[0].0 != course {
      FirstGradeRecorded(s[1..], course);
    }
  }

  /** In a list without repeated course names, an entry's grade is its course's first grade. */
  lemma {:induction false} FirstGradeUnique(s: seq<Enrollment>, k: nat)
    requires NoDupCourses(s) && k < |s|
    ensures FirstGrade(s, s[k].0) == Some(s[k].1)
  {
    if k > 0 {
      FirstGradeUnique(s[1..], k - 1);
    }
  }

  /**
   * On a descending list the first entry for a course carries its highest
   * grade: `(c, g) >= (c, g')` forces `g >= g'`.
   */
  lemma {:induction false} DescendingFirstIsHighest(s: seq<Enrollment>, i: nat)
    requires Descending(s) && i < |s|
    ensures FirstGrade(s, s[i].0).Some?
    ensures s[i].1 <= FirstGrade(s, s[i].0).value
  {
    if s[0].0 != s[i].0 {
      DescendingFirstIsHighest(s[1..], i - 1);
    } else if i > 0 {
      assert Le(s[i], s[0]);
    }
  }

  /** Dedup keeps each course's first entry: every course lookup answers as on the input. */
  lemma {:induction false} DedupFirstGrade(s: seq<Enrollment>, course: string)
    ensures FirstGrade(Dedup(s), course) == FirstGrade(s, course)
  {
    if s != [] {
      var init, last := s[..|s| - 1], s[|s| - 1];
      var kept := Dedup(init);
      assert s == init + [last];
      DedupFirstGrade(init, course);
      FirstGradeAppend(init, last, course);
      FirstGradeAppend(kept, last, course);
      FirstGradeAbsent(kept, course);
    }
  }

  /** Every course name occurs at most once in Dedup's result. */
  lemma {:induction false} DedupNoDupCourses(s: seq<Enrollment>)
    ensures NoDupCourses(Dedup(s))
  {
    if s != [] {
      var kept := Dedup(s[..|s| - 1]);
      DedupNoDupCourses(s[..|s| - 1]);
      if s[|s| - 1].0 !in Names(kept) {
        var r := kept + [s[|s| - 1]];
        forall i, j | 0 <= i < j < |r| ensures r[i].0 != r[j].0 {
          if j == |kept| {
            assert Names(kept)[i] == kept[i].0;
          }
        }
      }
    }
  }

  /** Dedup's result is a subsequence of its input: nothing is added or reordered. */
  lemma {:induction false} DedupSubsequence(s: seq<Enrollment>)
    ensures IsSubsequence(Dedup(s), s)
  {
    if s != [] {
      var init, last := s[..|s| - 1], s[|s| - 1];
      var kept := Dedup(init);
      DedupSubsequence(init);
      if last.0 in Names(kept) {
        if kept != [] {
          assert s[..|s| - 1] == init;
        }
      } else {
        assert (kept + [last])[..|kept|] == kept;
      }
    }
  }

  /** A subsequence holds no more copies of any entry than the list it is taken from. */
  lemma {:induction false} SubsequenceMultiset(a: seq<Enrollment>, b: seq<Enrollment>)
    requires IsSubsequence(a, b)
    ensures multiset(a) <= multiset(b)
    decreases |b|
  {
    if a != [] {
      var bInit := b[..|b| - 1];
      assert b == bInit + [b[|b| - 1]];
      if a[|a| - 1] == b[|b| - 1] && IsSubsequence(a[..|a| - 1], bInit) {
        SubsequenceMultiset(a[..|a| - 1], bInit);
        assert a == a[..|a| - 1] + [a[|a| - 1]];
      } else {
        SubsequenceMultiset(a, bInit);
      }
    }
  }

  /** A subsequence of a descending list is descending. */
  lemma {:induction false} SubsequenceDescending(a: seq<Enrollment>, b: seq<Enrollment>)
    requires IsSubsequence(a, b) && Descending(b)
    ensures Descending(a)
    decreases |b|
  {
    if a != [] {
      var aInit, bInit := a[..|a| - 1], b[..|b| - 1];
      if a[|a| - 1] == b[|b| - 1] && IsSubsequence(aInit, bInit) {
        SubsequenceDescending(aInit, bInit);
        SubsequenceMultiset(aInit, bInit);
        forall i, j | 0 <= i < j < |a| ensures Le(a[j], a[i]) {
          if j == |a| - 1 {
            assert aInit[i] in multiset(bInit);
            var k :| 0 <= k < |bInit| && bInit[k] == a[i];
            assert Le(b[|b| - 1], b[k]);
          } else {
            assert Le(aInit[j], aInit[i]);
          }
        }
      } else {
        SubsequenceDescending(a, bInit);
      }
    }
  }

  /** A list without repeated course names is left as it is. */
  lemma {:induction false} DedupNoDupIdentity(s: seq<Enrollment>)
    requires NoDupCourses(s)
    ensures Dedup(s) == s
  {
    if s != [] {
      var init, last := s[..|s| - 1], s[|s| - 1];
      DedupNoDupIdentity(init);
      assert s == init + [last];
    }
  }

  /** Deduplicating twice is deduplicating once. */
  lemma DedupIdempotent(s: seq<Enrollment>)
    ensures Dedup(Dedup(s)) == Dedup(s)
  {
    DedupNoDupCourses(s);
    DedupNoDupIdentity(Dedup(s));
  }

  /** Dedup keeps a list without repeated pairs free of them, and a descending list descending. */
  lemma DedupKeepsOrder(s: seq<Enrollment>)
    ensures NoDupPairs(s) ==> NoDupPairs(Dedup(s))
    ensures Descending(s) ==> Descending(Dedup(s))
  {
    DedupSubsequence(s);
    SubsequenceMultiset(Dedup(s), s);
    if Descending(s) {
      SubsequenceDescending(Dedup(s), s);
    }
  }

  /** A non-empty list keeps at least one entry, so a later average never divides by zero. */
  lemma DedupNonEmpty(s: seq<Enrollment>)
    ensures Dedup(s) == [] <==> s == []
  {
    if s != [] {
      DedupFirstGrade(s, s[0].0);
    }
  }

  /**
   * On a list `add_course` left in descending order, Dedup keeps every course
   * exactly once, with a grade that was recorded for it and is at least every
   * grade recorded for it: the highest one.
   */
  lemma DedupKeepsHighestGrade(s: seq<Enrollment>, i: nat, k: nat)
    requires Descending(s) && i < |s|
    requires k < |Dedup(s)| && Dedup(s)[k].0 == s[i].0
    ensures Dedup(s)[k] in s
    ensures s[i].1 <= Dedup(s)[k].1
  {
    var d := Dedup(s);
    DedupNoDupCourses(s);
    FirstGradeUnique(d, k);
    DedupFirstGrade(s, s[i].0);
    DescendingFirstIsHighest(s, i);
    FirstGradeRecorded(s, s[i].0);
  }

  /** Every course recorded in the input is kept. */
  lemma DedupKeepsEveryCourse(s: seq<Enrollment>, course: string)
    ensures course in Names(Dedup(s)) <==> course in Names(s)
  {
    DedupFirstGrade(s, course);
    FirstGradeAbsent(s, course);
    FirstGradeAbsent(Dedup(s), course);
  }
}
