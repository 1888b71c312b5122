/**
 * The student registry: a Python dict from student name to either the
 * sentinel text "no completed courses" or a list of (course, grade) pairs,
 * changed in place by `add_student`, `add_course` and `del_dups`, and read
 * by `print_student` and `summary`.
 */
module StudentDatabase {
  import opened Order
  import opened Sorting
  import opened Deduplication
  import opened Tallies
  import opened Wrappers

  /** A student's record: the sentinel, or the list of completed courses. */
  datatype Record = NoCourses | Courses(list: seq<Enrollment>)

  /** The exceptions the source lets escape, with the name being processed. */
  datatype Error =
    | KeyError(name: string)           // `students[name]` on an unregistered name
    | UnpackError(name: string)        // ValueError: `for course, grade in` over the sentinel text
    | ZeroDivisionError(name: string)  // an average over an empty course list

  /** What `print_student` reports; the printing itself is not modelled. */
  datatype StudentView =
    | NoSuchPerson
    | NoCompletedCourses
    | Completed(courses: seq<Enrollment>, count: nat, total: int, average: real)

  /** What `summary` reports: `len(students)` and the two winners. */
  datatype Report = Report(students: nat, standings: Standings)

  /**
   * The shape every record keeps: a course list is non-empty (`add_course`
   * only ever creates one holding a pair), descending, and has no repeated pair.
   */
  predicate WellFormed(rec: Record)
  {
    rec.Courses? ==> rec.list != [] && Descending(rec.list) && NoDupPairs(rec.list)
  }

  /**
   * The record `add_course(students, name, courseComp)` leaves: a zero grade
   * changes nothing; the sentinel becomes the one-entry list; a pair already
   * present changes nothing; otherwise the pair is appended and the list
   * sorted and reversed.
   */
  function CourseAdded(rec: Record, courseComp: Enrollment): (r: Record)
    ensures courseComp.1 == 0 ==> r == rec
    ensures rec.NoCourses? && courseComp.1 != 0 ==> r == Courses([courseComp])
    ensures rec.Courses? && courseComp in rec.list ==> r == rec
    ensures courseComp.1 != 0 ==> r.Courses? && courseComp in r.list
  {
    if courseComp.1 == 0 then rec
    else match rec
      // the sentinel becomes [courseComp], which then holds the pair
      case NoCourses => Courses([courseComp])
      case Courses(list) =>
        if courseComp in list then rec
        else
          SortThenReverse(list + [courseComp]);
          assert courseComp in multiset(list + [courseComp]);
          Courses(Reversed(SortAscending(list + [courseComp])))
  }

  /**
   * A new non-zero pair leaves a list holding the old entries and the new
   * pair, in descending order.
   */
  lemma CourseAddedSorted(rec: Record, courseComp: Enrollment)
    requires rec.Courses? && courseComp.1 != 0 && courseComp !in rec.list
    ensures CourseAdded(rec, courseComp).Courses?
    ensures multiset(CourseAdded(rec, courseComp).list) == multiset(rec.list) + multiset{courseComp}
    ensures Descending(CourseAdded(rec, courseComp).list)
  {
    SortThenReverse(rec.list + [courseComp]);
  }

  /** `add_course` keeps a record well formed; in particular it never adds a pair twice. */
  lemma CourseAddedWellFormed(rec: Record, courseComp: Enrollment)
    requires WellFormed(rec)
    ensures WellFormed(CourseAdded(rec, courseComp))
  {
    if rec.Courses? && courseComp.1 != 0 && courseComp !in rec.list {
      CourseAddedSorted(rec, courseComp);
      var before, after := rec.list, CourseAdded(rec, courseComp).list;
      assert multiset(after) == multiset(before) + multiset{courseComp};
      assert courseComp in after;
      forall x | x in after ensures multiset(after)[x] == 1 {
        if x == courseComp {
          assert multiset(before)[x] == 0;
        } else {
          assert x in multiset(before);
          assert multiset(before)[x] == 1;
        }
      }
    } else if rec.NoCourses? && courseComp.1 != 0 {
      assert CourseAdded(rec, courseComp).list == [courseComp];
    }
  }

  /** The record a run of `add_course` calls leaves, starting from `rec`. */
  function Replay(rec: Record, calls: seq<Enrollment>): Record
  {
    if calls == [] then rec
    else CourseAdded(Replay(rec, calls[..|calls| - 1]), calls[|calls| - 1])
  }

  /** A run of `add_course` calls whose grades are all 0 leaves the record as it was. */
  lemma {:induction false} ZeroGradesIgnored(rec: Record, calls: seq<Enrollment>)
    requires forall i :: 0 <= i < |calls| ==> calls[i].1 == 0
    ensures Replay(rec, calls) == rec
  {
    if calls != [] {
      ZeroGradesIgnored(rec, calls[..|calls| - 1]);
    }
  }

  /** Two courses added in ascending order come out in descending order. */
  lemma TwoCoursesExample()
    ensures Replay(NoCourses, [("A", 3), ("B", 5)]) == Courses([("B", 5), ("A", 3)])
  {
    var calls: seq<Enrollment> := [("A", 3), ("B", 5)];
    assert calls[..1] == [("A", 3)];
    assert Replay(NoCourses, calls[..1]) == Courses([("A", 3)]);
    assert StrLe("A", "B");
    assert SortAscending([("A", 3), ("B", 5)]) == [("A", 3), ("B", 5)];
  }

  /**
   * After `add_student` and any run of `add_course` calls, the record is the
   * sentinel exactly when every grade was 0, and otherwise a well-formed list
   * holding exactly the pairs added with a non-zero grade.
   */
  lemma {:induction false} ReplayContents(calls: seq<Enrollment>)
    ensures WellFormed(Replay(NoCourses, calls))
    ensures Replay(NoCourses, calls).NoCourses? <==> forall i :: 0 <= i < |calls| ==> calls[i].1 == 0
    ensures Replay(NoCourses, calls).Courses? ==>
              forall x :: x in Replay(NoCourses, calls).list <==> x in calls && x.1 != 0
  {
    if calls != [] {
      var init, c := calls[..|calls| - 1], calls[|calls| - 1];
      var before := Replay(NoCourses, init);
      ReplayContents(init);
      CourseAddedWellFormed(before, c);
      assert calls == init + [c];
      assert forall x :: x in calls <==> x in init || x == c;
      if before.Courses? && c.1 != 0 && c !in before.list {
        CourseAddedSorted(before, c);
        var after := CourseAdded(before, c).list;
        forall x ensures x in after <==> x in before.list || x == c {
          assert x in after <==> x in multiset(after);
        }
      }
    }
  }

  /**
   * The guarantee `add_course` and `del_dups` give together: for every course
   * added with a non-zero grade, the deduplicated list holds that course
   * exactly once, as a pair that was added, with a grade at least as high as
   * every grade added for it.
   */
  lemma HighestGradeKept(calls: seq<Enrollment>, i: nat)
    requires i < |calls| && calls[i].1 != 0
    ensures Replay(NoCourses, calls).Courses?
    ensures NoDupCourses(Dedup(Replay(NoCourses, calls).list))
    ensures calls[i].0 in Names(Dedup(Replay(NoCourses, calls).list))
    ensures forall k :: 0 <= k < |Dedup(Replay(NoCourses, calls).list)|
                        && Dedup(Replay(NoCourses, calls).list)[k].0 == calls[i].0 ==>
              Dedup(Replay(NoCourses, calls).list)[k] in calls
              && calls[i].1 <= Dedup(Replay(NoCourses, calls).list)[k].1
  {
    ReplayContents(calls);
    var s := Replay(NoCourses, calls).list;
    assert calls[i] in s;
    var p :| 0 <= p < |s| && s[p] == calls[i];
    DedupNoDupCourses(s);
    assert Names(s)[p] == calls[i].0;
    DedupKeepsEveryCourse(s, calls[i].0);
    forall k | 0 <= k < |Dedup(s)| && Dedup(s)[k].0 == calls[i].0
      ensures Dedup(s)[k] in calls && calls[i].1 <= Dedup(s)[k].1
    {
      DedupKeepsHighestGrade(s, p, k);
    }
  }

  /** A record as `del_dups` rewrites it. */
  function DedupRecord(rec: Record): Record
  {
    match rec
    case NoCourses => NoCourses
    case Courses(list) => Courses(Dedup(list))
  }

  /** The registry once `del_dups` has rewritten the records of the names in `done`. */
  function DedupThrough(records: map<string, Record>, done: seq<string>): (m: map<string, Record>)
    ensures m.Keys == records.Keys
  {
    map n | n in records :: if n in done then DedupRecord(records[n]) else records[n]
  }

  /** `del_dups` keeps every record well formed; in particular a list never becomes empty. */
  lemma DedupRecordWellFormed(rec: Record)
    requires WellFormed(rec)
    ensures WellFormed(DedupRecord(rec))
  {
    if rec.Courses? {
      DedupKeepsOrder(rec.list);
      DedupNonEmpty(rec.list);
    }
  }

  /**
   * The position, in iteration order, of the first student whose record is
   * the sentinel: where `del_dups` raises. `|order|` when there is none.
   */
  function FirstNoCourses(order: seq<string>, records: map<string, Record>): (k: nat)
    requires forall i :: 0 <= i < |order| ==> order[i] in records
    ensures k <= |order|
    ensures k < |order| ==> records[order[k]].NoCourses?
    ensures forall j :: 0 <= j < k ==> records[order[j]].Courses?
  {
    if order == [] then 0
    else if records[order[0]].NoCourses? then 0
    else 1 + FirstNoCourses(order[1..], records)
  }

  /**
   * Rewriting records never turns a list into the sentinel or back, so a
   * second `del_dups` run stops at the same student as the first.
   */
  lemma {:induction false} FirstNoCoursesKept(order: seq<string>, records: map<string, Record>, done: seq<string>)
    requires forall i :: 0 <= i < |order| ==> order[i] in records
    ensures FirstNoCourses(order, DedupThrough(records, done)) == FirstNoCourses(order, records)
  {
    if order != [] {
      FirstNoCoursesKept(order[1..], records, done);
    }
  }

  /**
   * `del_dups` run twice, each run stopping where it raises, leaves what the
   * first run left, and raises (or not) at the same student.
   */
  lemma DelDupsIdempotent(order: seq<string>, records: map<string, Record>)
    requires forall i :: 0 <= i < |order| ==> order[i] in records
    ensures var once := DedupThrough(records, order[..FirstNoCourses(order, records)]);
            && FirstNoCourses(order, once) == FirstNoCourses(order, records)
            && DedupThrough(once, order[..FirstNoCourses(order, once)]) == once
  {
    var done := order[..FirstNoCourses(order, records)];
    FirstNoCoursesKept(order, records, done);
    forall n | n in records && n in done && records[n].Courses? {
      DedupIdempotent(records[n].list);
    }
  }

  /** Every registered student has a course list: `del_dups` and the summary loop do not raise on a sentinel. */
  predicate AllListed(order: seq<string>, records: map<string, Record>)
  {
    forall i :: 0 <= i < |order| ==> order[i] in records && records[order[i]].Courses?
  }

  /**
   * The position, in iteration order, of the first student whose list is
   * empty: where the summary loop divides by zero. `|order|` when there is none.
   */
  function FirstEmpty(order: seq<string>, records: map<string, Record>): (k: nat)
    requires AllListed(order, records)
    ensures k <= |order|
    ensures k < |order| ==> records[order[k]].list == []
    ensures forall j :: 0 <= j < k ==> records[order[j]].list != []
  {
    if order == [] then 0
    else if records[order[0]].list == [] then 0
    else 1 + FirstEmpty(order[1..], records)
  }

  /** `students.items()` once every record is a list. */
  function Listing(order: seq<string>, records: map<string, Record>): seq<(string, seq<Enrollment>)>
    requires AllListed(order, records)
  {
    seq(|order|, i requires 0 <= i < |order| => (order[i], records[order[i]].list))
  }

  /** Each name occurs once in the iteration order. */
  predicate Distinct(order: seq<string>)
  {
    forall i, j :: 0 <= i < j < |order| ==> order[i] != order[j]
  }

  /** Every name in the iteration order is a key of the dict. */
  predicate Registered(order: seq<string>, records: map<string, Record>)
  {
    forall i :: 0 <= i < |order| ==> order[i] in records
  }

  /**
   * The registry's shape: the iteration order lists each key once, and every
   * record is well formed.
   */
  ghost predicate Consistent(order: seq<string>, records: map<string, Record>)
  {
    && Distinct(order)
    && Registered(order, records)
    && (forall n :: n in records ==> n in order)
    && (forall n :: n in records ==> WellFormed(records[n]))
  }

  /** `del_dups` keeps the registry consistent, however many records it has rewritten. */
  lemma DedupThroughConsistent(order: seq<string>, records: map<string, Record>, done: seq<string>)
    requires Consistent(order, records)
    ensures Consistent(order, DedupThrough(records, done))
  {
    forall n | n in records {
      DedupRecordWellFormed(records[n]);
    }
  }

  /**
   * Rewriting the next name in iteration order: its record is still the
   * original one, and afterwards DedupThrough covers one more name.
   */
  lemma DedupThroughNext(order: seq<string>, records: map<string, Record>, i: nat)
    requires Distinct(order) && Registered(order, records) && i < |order|
    ensures order[i] in records
    ensures DedupThrough(records, order[..i])[order[i]] == records[order[i]]
    ensures DedupThrough(records, order[..i + 1])
         == DedupThrough(records, order[..i])[order[i] := DedupRecord(records[order[i]])]
  {
    assert order[i] !in order[..i];
    assert order[..i + 1] == order[..i] + [order[i]];
  }

  /** Once no record is the sentinel, `del_dups` leaves every record a list. */
  lemma DedupThroughListed(order: seq<string>, records: map<string, Record>)
    requires Consistent(order, records)
    ensures FirstNoCourses(order, records) == |order| ==>
              AllListed(order, DedupThrough(records, order[..|order|]))
  {
    assert order[..|order|] == order;
  }

  /**
   * In a consistent registry where every record is a list, no list is empty:
   * the division in the summary loop is never by zero.
   */
  lemma NoEmptyList(order: seq<string>, records: map<string, Record>)
    requires Consistent(order, records) && AllListed(order, records)
    ensures FirstEmpty(order, records) == |order|
  {
    forall j | 0 <= j < |order|
      ensures records[order[j]].list != []
    {
      assert WellFormed(records[order[j]]);
    }
  }

  /**
   * The part of `summary` after `del_dups`: `len(students)`, then the
   * per-student loop over `students.items()`, which raises at the first
   * student with an empty list.
   */
  method Tabulate(order: seq<string>, records: map<string, Record>) returns (r: Result<Report, Error>)
    requires AllListed(order, records)
    ensures FirstEmpty(order, records) < |order| ==>
              r == Err(ZeroDivisionError(order[FirstEmpty(order, records)]))
    ensures FirstEmpty(order, records) == |order| ==>
              && r.Ok?
              && r.value.students == |records|
              && MostCoursesAmong(Listing(order, records), |order|, r.value.standings.mostCourses)
              && BestAverageAmong(Listing(order, records), |order|, r.value.standings.bestAverage)
  {
    var numStudents := |records|;
    var entries := Listing(order, records);
    assert forall i :: 0 <= i < |order| ==> entries[i].1 == records[order[i]].list;
    var t := Tally(entries);
    match t
    case Err(j) =>
      r := Err(ZeroDivisionError(order[j]));
    case Ok(standings) =>
      r := Ok(Report(numStudents, standings));
  }

  /**
   * The loop of `del_dups` over `students.items()`, on the dict's keys and
   * contents: each record in turn is replaced by its deduplicated list, until
   * the first sentinel record, whose unpacking raises.
   */
  method DedupRecords(order: seq<string>, records: map<string, Record>)
    returns (r: Outcome<Error>, students: map<string, Record>)
    requires Distinct(order) && Registered(order, records)
    ensures students == DedupThrough(records, order[..FirstNoCourses(order, records)])
    ensures r == if FirstNoCourses(order, records) == |order| then Pass
                 else Fail(UnpackError(order[FirstNoCourses(order, records)]))
  {
    students := records;
    ghost var k := FirstNoCourses(order, records);
    r := Pass;
    var i := 0;
    while i < |order|
      invariant 0 <= i <= |order|
      invariant i <= k
      invariant students == DedupThrough(records, order[..i])
      invariant r == Pass
    {
      var name := order[i];
      DedupThroughNext(order, records, i);
      match students[name]
      case NoCourses => {
        assert k == i by {
          assert records[order[i]].NoCourses?;
        }
        r := Fail(UnpackError(name));
        break;
      }
      case Courses(values) => {
        var unique := DedupList(values);
        students := students[name := Courses(unique)];
        assert i < k by {
          assert records[order[i]].Courses?;
        }
        i := i + 1;
      }
    }
    assert r.Pass? ==> k == |order|;
  }

  class Registry {
    /** The dict's keys in insertion order, which is its iteration order. */
    var order: seq<string>
    /** The dict itself. */
    var records: map<string, Record>

    ghost predicate Valid()
      reads this
    {
      Consistent(order, records)
    }

    /** `students = {}` */
    constructor ()
      ensures Valid()
      ensures order == [] && records == map[]
    {
      order := [];
      records := map[];
    }

    /**
     * `add_student`: the name gets the sentinel, replacing any earlier record;
     * a new name goes to the end of the iteration order, an existing one keeps
     * its place.
     */
    method AddStudent(name: string)
      requires Valid()
      modifies this
      ensures Valid()
      ensures records == old(records)[name := NoCourses]
      ensures order == if name in old(records) then old(order) else old(order) + [name]
    {
      if name !in records {
        order := order + [name];
      }
      records := records[name := NoCourses];
    }

    /**
     * `add_course`: raises KeyError, changing nothing, on an unregistered
     * name; otherwise replaces the record with CourseAdded's.
     */
    method AddCourse(name: string, courseComp: Enrollment) returns (r: Outcome<Error>)
      requires Valid()
      modifies this
      ensures Valid()
      ensures order == old(order)
      ensures name !in old(records) ==> r == Fail(KeyError(name)) && records == old(records)
      ensures name in old(records) ==>
                r == Pass && records == old(records)[name := CourseAdded(old(records)[name], courseComp)]
    {
      if name !in records {
        return Fail(KeyError(name));
      }
      CourseAddedWellFormed(records[name], courseComp);
      var rec := records[name];
      if rec == NoCourses && courseComp.1 != 0 {
        rec := Courses([courseComp]);
        records := records[name := rec];
      }
      if courseComp.1 != 0 && courseComp !in rec.list {
        var list := rec.list + [courseComp];
        list := SortAscending(list);
        list := Reversed(list);
        records := records[name := Courses(list)];
      }
      r := Pass;
    }

    /**
     * `del_dups`: rewrites each record, in iteration order, to its
     * deduplicated list, and raises at the first sentinel record, leaving the
     * records before it rewritten and the rest as they were.
     */
    method DelDups() returns (r: Outcome<Error>)
      requires Valid()
      modifies this
      ensures Valid()
      ensures order == old(order)
      ensures records == DedupThrough(old(records), old(order)[..FirstNoCourses(old(order), old(records))])
      ensures r == if FirstNoCourses(old(order), old(records)) == |old(order)| then Pass
                   else Fail(UnpackError(old(order)[FirstNoCourses(old(order), old(records))]))
    {
      DedupThroughConsistent(order, records, order[..FirstNoCourses(order, records)]);
      r, records := DedupRecords(order, records);
    }

    /**
     * `print_student`: an unknown name and a sentinel record are reported
     * without changing anything; otherwise `del_dups` runs over the whole
     * registry (and may raise there) and the student's deduplicated list is
     * reported with its count and average.
     */
    method PrintStudent(name: string) returns (r: Result<StudentView, Error>)
      requires Valid()
      modifies this
      ensures Valid()
      ensures order == old(order)
      ensures name !in old(records) ==> r == Ok(NoSuchPerson) && records == old(records)
      ensures name in old(records) && old(records)[name].NoCourses? ==>
                r == Ok(NoCompletedCourses) && records == old(records)
      ensures name in old(records) && old(records)[name].Courses? ==>
                records == DedupThrough(old(records), old(order)[..FirstNoCourses(old(order), old(records))])
      ensures name in old(records) && old(records)[name].Courses? &&
              FirstNoCourses(old(order), old(records)) < |old(order)| ==>
                r == Err(UnpackError(old(order)[FirstNoCourses(old(order), old(records))]))
      ensures name in old(records) && old(records)[name].Courses? &&
              FirstNoCourses(old(order), old(records)) == |old(order)| ==>
                var list := Dedup(old(records)[name].list);
                list != [] && r == Ok(Completed(list, |list|, SumGrades(list), Average(list)))
      ensures r.Err? ==> !r.error.ZeroDivisionError?
    {
      if name !in records {
        return Ok(NoSuchPerson);
      }
      if records[name] == NoCourses {
        return Ok(NoCompletedCourses);
      }
      var dd := DelDups();
      if dd.Fail? {
        return Err(dd.error);
      }
      var list := records[name].list;
      // the registry stays well formed, so the list is not empty and the division is safe
      var compCourses, total := CountAndTotal(list);
      r := Ok(Completed(list, compCourses, total, total as real / compCourses as real));
    }

    /**
     * `summary`: runs `del_dups` (which may raise), then the per-student loop
     * (which raises at the first empty list); otherwise reports the number of
     * registered students and the two winners.
     */
    method Summary() returns (r: Result<Report, Error>)
      requires Valid()
      modifies this
      ensures Valid()
      ensures order == old(order)
      ensures records == DedupThrough(old(records), old(order)[..FirstNoCourses(old(order), old(records))])
      ensures FirstNoCourses(old(order), old(records)) < |old(order)| ==>
                r == Err(UnpackError(old(order)[FirstNoCourses(old(order), old(records))]))
      ensures FirstNoCourses(old(order), old(records)) == |old(order)| ==>
                && AllListed(order, records)
                && r.Ok?
                && r.value.students == |records|
                && MostCoursesAmong(Listing(order, records), |order|, r.value.standings.mostCourses)
                && BestAverageAmong(Listing(order, records), |order|, r.value.standings.bestAverage)
      ensures r.Err? ==> !r.error.ZeroDivisionError?
    {
      DedupThroughListed(order, records);
      var dd := DelDups();
      if dd.Fail? {
        return Err(dd.error);
      }
      NoEmptyList(order, records);
      r := Tabulate(order, records);
    }
  }
}
