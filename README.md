# Student database — a Dafny model

This project models `src/student_database.py`, a small in-memory student
registry. The registry is a dict from a student's name to a record. A record is
either the sentinel text `"no completed courses"` or a list of
`(course, grade)` pairs. Five operations act on it:

- `add_student` gives a name the sentinel record.
- `add_course` ignores a zero grade and ignores a pair that is already present.
  Otherwise it appends the pair, sorts the list and reverses it, so the list is
  in descending `(course, grade)` order.
- `del_dups` keeps, for each student, the first entry for each course. On a
  descending list that entry has the course's highest grade.
- `print_student` reports one student.
- `summary` reports the number of students, the student with the most courses
  and the student with the best average.

Layout, one module per file:

- `order.dfy` (`Order`): Python's order on `str` and on `(str, int)` tuples,
  proved a total order.
- `sorting.dfy` (`Sorting`): `list.sort()` and `list.reverse()`. The sort is an
  insertion sort, and the sorted order of a list is proved unique.
- `dedup.dfy` (`Deduplication`): the inner loop of `del_dups` and what it keeps.
- `tally.dfy` (`Tallies`): the count/total loop and the winner selection of
  `summary`.
- `registry.dfy` (`StudentDatabase`): the registry as a class `Registry`. Its
  field `order` holds the dict's keys in insertion order, which is the dict's
  iteration order. Its field `records` holds the dict itself. The five
  functions of the source are methods of the class.
- `wrappers.dfy` (`Wrappers`): `Option`, `Result` and `Outcome`.

The exceptions the source lets escape are `Error` values:

- `KeyError`: `add_course` on an unregistered name.
- `UnpackError`: stands for the `ValueError` ("not enough values to unpack")
  that `del_dups` raises at line 29 on a sentinel record. Iterating over the
  sentinel text yields one-character strings, which cannot be unpacked into
  `course, grade`.
- `ZeroDivisionError`: an average over an empty list (lines 59 and 83). The
  registry never holds an empty list. `add_course` only creates a list holding
  a pair, and deduplication keeps a non-empty list non-empty. So the model
  proves that `print_student` and `summary` never raise this error. The
  summary loop on its own (`Tallies.Tally`, `StudentDatabase.Tabulate`) still
  raises it on an empty list.

`del_dups` rewrites records one by one, so when it raises, the students before
the sentinel (in iteration order) are already rewritten. The model keeps that
partial effect.

`del_dups` does not skip sentinel records: src/student_database.py:29 unpacks
every record, and on the sentinel text this raises. So `del_dups`, `summary`
and the list branch of `print_student` raise whenever any registered student
still has the sentinel record. The model follows the code here.

## Model

| member | source | states |
|---|---|---|
| Order.StrLeTotal | src/student_database.py:11 | any two strings are comparable under Python's `str` order |
| Order.StrLeAntisymmetric | src/student_database.py:11 | two strings each `<=` the other are equal |
| Order.StrLeTransitive | src/student_database.py:11 | Python's `str` order is transitive |
| Order.StrLeReflexive | src/student_database.py:11 | every string is `<=` itself |
| Order.LeTotal | src/student_database.py:11 | any two `(course, grade)` tuples are comparable |
| Order.LeAntisymmetric | src/student_database.py:11 | two tuples each `<=` the other are equal, so sorting has no ties between distinct pairs |
| Order.LeTransitive | src/student_database.py:11 | tuple order is transitive |
| Sorting.InsertAscending | src/student_database.py:11 | inserting into an ascending list keeps it ascending and adds exactly the one element |
| Sorting.SortAscendingCorrect | src/student_database.py:11 | `list.sort()` leaves an ascending permutation of the list |
| Sorting.AscendingPermutationUnique | src/student_database.py:11 | two ascending lists with the same elements are equal, so every correct sort gives the modelled result |
| Sorting.AscendingHeadLeast | src/student_database.py:11 | the head of an ascending list is at most each of its elements |
| Sorting.Reversed | src/student_database.py:12 | `list.reverse()` puts element `i` at position `len-1-i` and keeps the elements |
| Sorting.ReversedAscending | src/student_database.py:11-12 | reversing an ascending list gives a descending one |
| Sorting.SortThenReverse | src/student_database.py:10-12 | `sort()` then `reverse()` leaves a descending permutation of any input |
| StudentDatabase.CourseAdded | src/student_database.py:5-12 | grade 0 changes nothing; the sentinel with a non-zero grade becomes exactly `[course_comp]`; a pair already present changes nothing; otherwise the new pair is in the list |
| StudentDatabase.CourseAddedSorted | src/student_database.py:9-12 | a new non-zero pair gives a descending list holding the old entries plus that pair |
| StudentDatabase.CourseAddedWellFormed | src/student_database.py:9-12 | a non-empty, descending list without a repeated pair stays so: `add_course` never adds a pair twice and never leaves an empty list |
| StudentDatabase.ZeroGradesIgnored | src/student_database.py:6-9 | any run of `add_course` calls with grade 0 leaves the record unchanged |
| StudentDatabase.TwoCoursesExample | src/student_database.py:5-12 | adding `("A", 3)` then `("B", 5)` gives `[("B", 5), ("A", 3)]` |
| StudentDatabase.ReplayContents | src/student_database.py:1-12 | after `add_student` and any run of `add_course`, the record is the sentinel iff every grade was 0, and otherwise a descending list without repeats holding exactly the non-zero pairs added |
| StudentDatabase.HighestGradeKept | src/student_database.py:5-33 | after those calls and deduplication, each course added with a non-zero grade appears exactly once, as an added pair whose grade is at least every grade added for that course |
| StudentDatabase.Registry.constructor | src/student_database.py:105 | the registry starts empty and consistent |
| StudentDatabase.Registry.AddStudent | src/student_database.py:1-2 | the name's record becomes the sentinel, overwriting any earlier record; no other record changes; a new name goes last in iteration order, an existing one keeps its place |
| StudentDatabase.Registry.AddCourse | src/student_database.py:5-12 | an unregistered name raises KeyError and changes nothing; otherwise only that name's record changes, to CourseAdded's; the registry stays consistent |
| Deduplication.DedupList | src/student_database.py:27-32 | the `unique_courses`/`seen` loop returns Dedup of the list |
| Deduplication.DedupFirstGrade | src/student_database.py:27-32 | the kept list answers every course lookup with the first grade the input had for that course |
| Deduplication.DedupNoDupCourses | src/student_database.py:27-32 | no course name appears twice in the kept list |
| Deduplication.DedupSubsequence | src/student_database.py:27-32 | the kept list is a subsequence of the input: order preserved, nothing added |
| Deduplication.DedupKeepsEveryCourse | src/student_database.py:27-32 | a course is in the kept list iff it is in the input |
| Deduplication.DedupNoDupIdentity | src/student_database.py:27-32 | a list without repeated course names is left as it is |
| Deduplication.DedupIdempotent | src/student_database.py:27-32 | deduplicating twice equals deduplicating once |
| Deduplication.DedupKeepsOrder | src/student_database.py:27-33 | deduplication keeps a descending list descending and a list without repeated pairs so |
| Deduplication.DedupNonEmpty | src/student_database.py:27-33 | the kept list is empty iff the input is |
| Deduplication.DedupKeepsHighestGrade | src/student_database.py:27-32 | on a descending list, the entry kept for a course was recorded and has a grade at least every grade recorded for that course |
| Deduplication.DescendingFirstIsHighest | src/student_database.py:10-12 | on a descending list, the first entry for a course has its highest grade |
| Deduplication.FirstGradeAbsent | src/student_database.py:30 | a course has no first grade iff it is not among the list's course names |
| Deduplication.FirstGradeAppend | src/student_database.py:29-32 | appending an entry changes a course's first grade only if the course had none |
| Deduplication.FirstGradeRecorded | src/student_database.py:29-32 | a course's first grade is recorded in the list with that course |
| Deduplication.FirstGradeUnique | src/student_database.py:27-32 | in a list without repeated course names, each entry's grade is its course's first grade |
| Deduplication.SubsequenceMultiset | src/student_database.py:27-32 | a subsequence holds no more copies of any pair than its source |
| Deduplication.SubsequenceDescending | src/student_database.py:27-32 | a subsequence of a descending list is descending |
| StudentDatabase.DedupThrough | src/student_database.py:26-33 | rewriting records keeps the registry's keys |
| StudentDatabase.FirstNoCoursesKept | src/student_database.py:26-29 | rewriting records never changes which student is the first with the sentinel record |
| StudentDatabase.DelDupsIdempotent | src/student_database.py:26-33 | a second `del_dups` run stops at the same student as the first, and leaves the registry as the first run left it |
| StudentDatabase.DedupRecordWellFormed | src/student_database.py:26-33 | `del_dups` keeps each list non-empty, descending and free of repeated pairs |
| StudentDatabase.FirstNoCourses | src/student_database.py:26-29 | finds the first student, in iteration order, whose record is the sentinel; all before it have lists |
| StudentDatabase.DedupRecords | src/student_database.py:26-33 | the loop over `students.items()` rewrites the records before the first sentinel to Dedup of their lists and keeps the others; it raises UnpackError naming that student, or completes if there is none |
| StudentDatabase.Registry.DelDups | src/student_database.py:17-33 | records before the first sentinel are rewritten to Dedup of their list and the others kept; raises UnpackError naming that student, or completes if there is none |
| StudentDatabase.Registry.PrintStudent | src/student_database.py:39-59 | an unknown name and a sentinel record are reported without changes; otherwise `del_dups` runs over the whole registry, and the student's kept list, which is non-empty, is returned with its count, total and exact average; the only error raised on the way is `del_dups`' UnpackError, never ZeroDivisionError |
| Tallies.CountAndTotal | src/student_database.py:79-81 | the count is the number of courses and the total the sum of their grades |
| Tallies.Tally | src/student_database.py:78-95 | raises at the first student with no courses; otherwise "most courses" is the first student with the largest count and "best average" the first with the highest average above 0, each compared with a strict `>` |
| StudentDatabase.FirstEmpty | src/student_database.py:83 | finds the first student, in iteration order, with an empty list; all before it have courses |
| StudentDatabase.NoEmptyList | src/student_database.py:83 | in a consistent registry where every record is a list, no list is empty, so the summary loop never divides by zero |
| StudentDatabase.Tabulate | src/student_database.py:63-95 | after `del_dups`: raises ZeroDivisionError naming the first student with an empty list; otherwise reports `len(students)` and winners meeting the "most courses" and "best average" rules over `students.items()` |
| StudentDatabase.Registry.Summary | src/student_database.py:61-99 | runs `del_dups`, raising as it does; if that completes, always reports `len(students)` and the two winners Tally selects over `students.items()`; never raises ZeroDivisionError |

## Left out

- Printing and message formatting (src/student_database.py:42-45, 52-59, 87, 92, 97-99): console output, not logic. `print_student` and `summary` return what they would print as data.
- The `__main__` demonstration (src/student_database.py:104-113): fixed sample data with no logic of its own. Only its empty dict (line 105) is modelled, by the constructor.
- Tallies.Tally: averages are exact rationals (`real`), not IEEE doubles. Python's `total_grade/count` rounds, so two averages that differ by less than a rounding step could compare differently in the source.
- StudentDatabase.Registry.PrintStudent: the returned average is an exact rational, not the float that `total/comp_courses` prints.
- Python's dynamic typing of a record is replaced by the `Record` datatype. The one place it matters, unpacking the sentinel text in `del_dups`, is kept as UnpackError.
- Python's built-in sort (Timsort) is modelled by an insertion sort. AscendingPermutationUnique shows that the result is the same list.
