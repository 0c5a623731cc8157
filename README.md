# Student grading app: the grade store

This project models the in-memory grade store of a small command-line
student grading application (`sga.py`) and proves properties of it in Dafny.

The store maps each student's name to that student's grades. A student's
grades map a subject name to a score. Four mutators change the store in
place: add a student, add or replace a grade, delete a student, and delete
a grade. Each mutator first checks whether the named entities exist and, for
a grade, that the score is in range. Two queries average scores: the mean
of one student's grades, and the class mean for one subject over every
student who has a grade in it.

The model has three modules:

- `Sums` (`sums.dfy`): the sum and mean of the values of a finite map. The
  sum is order-independent, and a mean lies within any bounds of the values.
- `GradeStore` (`store.dfy`): the store as a value, and every operation as a
  function from the store before to an `Outcome`: the store after plus a
  `Status`. The status replaces the message the source prints. Lemmas
  relate the operations: the range invariant, inverse pairs, idempotence,
  totals, and which averages an operation leaves alone.
- `GradeBook` (`grade_book.dfy`): the application's single global store as
  a class `Book` with one field `data`. Its four mutators update `data`
  in place (`modifies this`), and each is proved to produce exactly the new
  state and status of the matching `GradeStore` function. The class average
  is a `while` loop with a running total and a count, proved equal to
  `GradeStore.ClassSubjectAverage`.

Modelling decisions:

- The typed-in grade reaches `add_grade` as a string, and `float` converts
  it. The model takes the outcome of that conversion as a `ParsedScore`.
  `Finite(g)` is a number. `NonFinite` stands for strings such as `"nan"` or
  `"inf"`: `float` accepts these, but no range comparison does, so they
  reach the out-of-range branch. `Malformed` stands for strings that raise
  `ValueError`.
- The checks run in the source's order: the student is looked up first,
  then the score is converted, then its range is checked.
- Scores and means are exact `real` values. `round(average, 2)` is not
  applied.
- "N/A" is the `NotApplicable` constructor of `Sums.Average`.
- The class-average loop visits students in an unspecified order. Dict
  insertion order is not part of the model, and the exact result does not
  depend on the order.
- The per-student average reads the store without changing it. It is the
  function `GradeStore.StudentAverage` applied to a `Book`'s `data`.
- The inner dictionaries are never shared between students, so the model
  treats a student's grades as a value.
- A score string that converts to NaN or infinity gets through `float` but
  fails the range test at sga.py:49. So it is reported as out of range
  (sga.py:52-53), not as an invalid format.
- `GradeStore.SubjectColumn` is the reference definition the class-average
  loop is proved against: the scores for one subject, keyed by the students
  who have one.

## Model

| member | source | states |
|---|---|---|
| `GradeStore.AddStudent` | sga.py:32-38 | reports a duplicate exactly when the name exists, and then leaves the store unchanged; otherwise the name is added with no grades, and every existing student is unchanged; the range invariant is kept |
| `GradeStore.AddGrade` | sga.py:40-55 | student not found exactly when the name is absent; invalid format exactly when the score does not convert; out of range exactly when it is NaN, infinite or outside [0,100]; on every error the store is unchanged; on success the subject's score is the new value, the student's subject count grows by one only if the subject is new, and all other subjects and students are unchanged; the range invariant is kept |
| `GradeStore.DeleteStudent` | sga.py:102-108 | succeeds exactly when the name exists; the student's key and all its grades are removed; every other student is unchanged; a missing name leaves the store unchanged |
| `GradeStore.DeleteGrade` | sga.py:110-120 | student not found exactly when the name is absent; subject not found exactly when this student lacks the subject, and then the store is unchanged; on success only that subject is removed, the count drops by one, and other subjects and students are untouched |
| `GradeStore.StudentAverage` | sga.py:57-64 | not applicable exactly when the student is absent or has no grades; otherwise the mean times the number of grades equals the sum of the scores |
| `GradeStore.StudentAverageInRange` | sga.py:57-64 | under the range invariant, a student's mean is in [0,100] |
| `GradeStore.StudentAverageExample` | sga.py:57-64 | a student with grades 80 and 90 averages 85 |
| `GradeStore.ClassSubjectAverage` | sga.py:84-98 | not applicable exactly when no student has the subject; otherwise the mean times the number of such students equals the sum of their scores |
| `GradeStore.ClassSubjectAverageInRange` | sga.py:84-98 | under the range invariant, a class mean is in [0,100] |
| `GradeStore.ClassSubjectAverageExample` | sga.py:84-98 | Math scores 100 and 50, plus a student without Math, average 75 |
| `GradeStore.ClassSubjectAverageAbsentExample` | sga.py:94-95 | in the three-student example, Art gives not applicable |
| `GradeStore.MutatorsPreserveScoresInRange` | sga.py:49-50 | if every stored score is in [0,100] before any of the four mutators, this still holds after it |
| `GradeStore.DeleteStudentUndoesAddStudent` | sga.py:102-108 | deleting a newly added student succeeds and restores the original store |
| `GradeStore.DeleteGradeUndoesAddGrade` | sga.py:110-120 | deleting a newly added grade for a new subject succeeds and restores the original store |
| `GradeStore.AddGradeIdempotent` | sga.py:49-50 | repeating the same grade upsert does not change the store again |
| `GradeStore.AddGradeShiftsTotal` | sga.py:49-50 | a successful upsert adds the new score to the student's total and subtracts the score it replaces, if any |
| `GradeStore.DeleteGradeShiftsTotal` | sga.py:116-117 | deleting a grade subtracts exactly its score from the student's total |
| `GradeStore.DeletedStudentHasNoAverage` | sga.py:104-105 | after a student is deleted, that student's average is not applicable |
| `GradeStore.AddStudentKeepsClassAverage` | sga.py:37 | adding a student does not change any class mean |
| `GradeStore.AddGradeKeepsOtherClassAverage` | sga.py:50 | an upsert for one subject does not change another subject's class mean |
| `GradeStore.DeleteGradeKeepsOtherClassAverage` | sga.py:117 | deleting one subject's grade does not change another subject's class mean |
| `Sums.SumValuesRemove` | sga.py:63 | a sum of map values does not depend on which entry is taken first |
| `Sums.MeanOf` | sga.py:62-63 | not applicable exactly for an empty map; otherwise the mean times the count equals the sum |
| `Sums.MeanWithin` | sga.py:62-63 | a mean lies between any common lower and upper bound of the values |
| `GradeBook.Book.constructor` | sga.py:9 | the store starts with no students |
| `GradeBook.Book.AddStudent` | sga.py:32-38 | the new `data` and the status are those of `GradeStore.AddStudent` on the old `data`; the range invariant is kept |
| `GradeBook.Book.AddGrade` | sga.py:40-55 | the new `data` and the status are those of `GradeStore.AddGrade` on the old `data`; the range invariant is kept |
| `GradeBook.Book.DeleteStudent` | sga.py:102-108 | the new `data` and the status are those of `GradeStore.DeleteStudent` on the old `data`; the range invariant is kept |
| `GradeBook.Book.DeleteGrade` | sga.py:110-120 | the new `data` and the status are those of `GradeStore.DeleteGrade` on the old `data`; the range invariant is kept |
| `GradeBook.Book.ClassSubjectAverage` | sga.py:84-98 | the accumulator loop returns exactly `GradeStore.ClassSubjectAverage` of the store |
| `GradeBook.ScanAdvance` | sga.py:89-92 | visiting one more student adds that student's score for the subject to the total and one to the count, or changes neither if the student has no such score |
| `GradeBook.ScanComplete` | sga.py:94-98 | after every student is visited, the total and the count give the class average: not applicable for a zero count, otherwise total divided by count |

## Left out

- `load_data` and `save_data` (sga.py:11-30): file I/O and JSON through the `json` and `os` libraries. The save/load round trip cannot be stated without them. Loaded data is not range-checked, so the range invariant holds only for stores built by the mutators. The mutators' contracts therefore state it as "kept", not as always true.
- `float` string conversion (sga.py:48): a Python builtin. Only its outcome is modelled, as a `ParsedScore`. The rounding of a decimal string to a 64-bit float is not modelled.
- `round(average, 2)` and floating-point arithmetic (sga.py:64, sga.py:98): averages are exact reals without rounding. `GradeStore.StudentAverage` and `GradeStore.ClassSubjectAverage` return the unrounded mean.
- `view_student_report` (sga.py:66-82): print formatting only. The average it prints is `GradeStore.StudentAverage`.
- `delete_menu` and `main_menu` (sga.py:124-192): interactive `input`/`print` loops and `sys.exit`.
- Listing students and subjects in insertion order (sga.py:77, sga.py:183-184): the model keeps the store in an unordered `map`.
- Printed messages: each one is replaced by a `Status` value.
- Values loaded from the file that are not numbers: the model's scores are always reals.
