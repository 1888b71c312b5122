/**
 * The per-student loop of `summary` (and the count/total loop `print_student`
 * shares with it): count each student's courses, total their grades, and keep
 * the student with the most courses and the student with the best average,
 * a strict `>` deciding each, so the earliest student wins a tie.
 */
module Tallies {
  import opened Order
  import opened Wrappers

  /** The sum of the grades of a course list. */
  function SumGrades(s: seq<Enrollment>): int
  {
    if s == [] then 0 else SumGrades(s[..|s| - 1]) + s[|s| - 1].1
  }

  /** `total / count` as an exact rational. */
  function Average(s: seq<Enrollment>): real
    requires s != []
  {
    SumGrades(s) as real / |s| as real
  }

  /** A student the summary names: position in iteration order, name, course count and grade total. */
  datatype Leader = Leader(index: nat, name: string, courses: nat, total: int)

  /** Who `summary` names for "most courses completed" and for "best average grade" (None: the empty text). */
  datatype Standings = Standings(mostCourses: Option<Leader>, bestAverage: Option<Leader>)

  /** `l` describes the entry at its index. */
  predicate Describes(entries: seq<(string, seq<Enrollment>)>, l: Leader)
  {
    l.index < |entries|
    && l.name == entries[l.index].0
    && l.courses == |entries[l.index].1|
    && l.total == SumGrades(entries[l.index].1)
  }

  /**
   * `w` is what "most courses" holds after the first `n` students: the first
   * of them with the largest course count, provided that count beats the
   * initial 0.
   */
  predicate MostCoursesAmong(entries: seq<(string, seq<Enrollment>)>, n: nat, w: Option<Leader>)
    requires n <= |entries|
  {
    match w
    case None => forall j :: 0 <= j < n ==> |entries[j].1| == 0
    case Some(l) =>
      && Describes(entries, l) && l.index < n && l.courses > 0
      && (forall j :: 0 <= j < n ==> |entries[j].1| <= l.courses)
      && (forall j :: 0 <= j < l.index ==> |entries[j].1| < l.courses)
  }

  /**
   * `w` is what "best average" holds after the first `n` students: the first
   * of them with the highest average, provided that average beats the
   * initial 0.
   */
  predicate BestAverageAmong(entries: seq<(string, seq<Enrollment>)>, n: nat, w: Option<Leader>)
    requires n <= |entries|
    requires forall j :: 0 <= j < n ==> entries[j].1 != []
  {
    match w
    case None => forall j :: 0 <= j < n ==> Average(entries[j].1) <= 0.0
    case Some(l) =>
      && Describes(entries, l) && l.index < n && Average(entries[l.index].1) > 0.0
      && (forall j :: 0 <= j < n ==> Average(entries[j].1) <= Average(entries[l.index].1))
      && (forall j :: 0 <= j < l.index ==> Average(entries[j].1) < Average(entries[l.index].1))
  }

  /** The inner loop: `count += 1; total_grade += grade` for each course. */
  method CountAndTotal(courses: seq<Enrollment>) returns (count: nat, total: int)
    ensures count == |courses|
    ensures total == SumGrades(courses)
  {
    count, total := 0, 0;
    for k := 0 to |courses|
      invariant count == k
      invariant total == SumGrades(courses[..k])
    {
      var (_, grade) := courses[k];
      assert courses[..k + 1][..k] == courses[..k];
      count := count + 1;
      total := total + grade;
    }
    assert courses[..|courses|] == courses;
  }

  /**
   * The loop of `summary` over the deduplicated registry. It fails, naming
   * the position of the student, at the first student without courses
   * (`total_grade/count` divides by zero there); otherwise it reports the
   * first student with the most courses and the first with the best average.
   */
  method Tally(entries: seq<(string, seq<Enrollment>)>) returns (r: Result<Standings, nat>)
    ensures r.Err? ==> r.error < |entries| && entries[r.error].1 == []
                       && forall j :: 0 <= j < r.error ==> entries[j].1 != []
    ensures r.Ok? ==> forall j :: 0 <= j < |entries| ==> entries[j].1 != []
    ensures r.Ok? ==> MostCoursesAmong(entries, |entries|, r.value.mostCourses)
    ensures r.Ok? ==> BestAverageAmong(entries, |entries|, r.value.bestAverage)
  {
    var mostCourseComp: nat := 0;
    var most: Option<Leader> := None;
    var highestAvg: real := 0.0;
    var best: Option<Leader> := None;
    for i := 0 to |entries|
      invariant forall j :: 0 <= j < i ==> entries[j].1 != []
      invariant MostCoursesAmong(entries, i, most)
      invariant mostCourseComp == if most.Some? then most.value.courses else 0
      invariant BestAverageAmong(entries, i, best)
      invariant highestAvg == if best.Some? then Average(entries[best.value.index].1) else 0.0
    {
      var (name, value) := entries[i];
      var count, totalGrade := CountAndTotal(value);
      if count == 0 {
        return Err(i);
      }
      var avg := totalGrade as real / count as real;
      if avg > highestAvg {
        highestAvg := avg;
        best := Some(Leader(i, name, count, totalGrade));
      }
      if count > mostCourseComp {
        mostCourseComp := count;
        most := Some(Leader(i, name, count, totalGrade));
      }
    }
    r := Ok(Standings(most, best));
  }
}
