/**
  The grade store as a value: a map from student name to that student's
  grades, each a map from subject name to score, and every operation of the
  store as a function from the store before to the store after and a status.

  The status replaces the message each operation prints: `Ok` for the
  success message, one constructor per distinct error message.
 */
module GradeStore {
  import opened Sums

  type Name = string
  type Subject = string
  type Grades = map<Subject, real>
  type Store = map<Name, Grades>

  datatype Status =
    | Ok
    | DuplicateStudent
    | StudentNotFound
    | SubjectNotFound
    | InvalidGradeFormat
    | GradeOutOfRange

  /**
    The outcome of converting the typed-in grade with `float`: a finite
    number, a string that converts to a NaN or an infinity (which no range
    comparison accepts), or a string that does not convert at all.
   */
  datatype ParsedScore = Finite(value: real) | NonFinite | Malformed

  /** The store after an operation, and what the operation reports. */
  datatype Outcome = Outcome(store: Store, status: Status)

  /** The only scores the store accepts: 0 <= g <= 100. */
  predicate InRange(g: real)
  {
    0.0 <= g <= 100.0
  }

  /** The store invariant: every recorded score is in range. */
  predicate ScoresInRange(s: Store)
  {
    forall n, t :: n in s && t in s[n] ==> InRange(s[n][t])
  }

  /** Registers a new student with no grades; an existing name is refused. */
  function AddStudent(s: Store, name: Name): (r: Outcome)
    ensures r.status == Ok || r.status == DuplicateStudent
    ensures r.status == DuplicateStudent <==> name in s
    ensures r.status == DuplicateStudent ==> r.store == s
    ensures r.status == Ok ==> r.store.Keys == s.Keys + {name} && r.store[name] == map[]
    ensures forall n :: n in s ==> n in r.store && r.store[n] == s[n]
    ensures ScoresInRange(s) ==> ScoresInRange(r.store)
  {
    if name in s then Outcome(s, DuplicateStudent)
    else Outcome(s[name := map[]], Ok)
  }

  /**
    Records `subject`'s score for an existing student, replacing any earlier
    score for that subject. The student is looked up first, then the score
    is converted, then its range is checked; each failure leaves the store
    as it was.
   */
  function AddGrade(s: Store, name: Name, subject: Subject, score: ParsedScore): (r: Outcome)
    ensures r.status == StudentNotFound <==> name !in s
    ensures r.status == InvalidGradeFormat <==> name in s && score.Malformed?
    ensures r.status == GradeOutOfRange <==>
      name in s && (score.NonFinite? || (score.Finite? && !InRange(score.value)))
    ensures r.status == Ok <==> name in s && score.Finite? && InRange(score.value)
    ensures r.status != Ok ==> r.store == s
    ensures r.status == Ok ==>
      && r.store.Keys == s.Keys
      && r.store[name].Keys == s[name].Keys + {subject}
      && r.store[name][subject] == score.value
      && |r.store[name]| == |s[name]| + (if subject in s[name] then 0 else 1)
    ensures r.status == Ok ==>
      forall t :: t in s[name] && t != subject ==> r.store[name][t] == s[name][t]
    ensures forall n :: n in s && n != name ==> n in r.store && r.store[n] == s[n]
    ensures ScoresInRange(s) ==> ScoresInRange(r.store)
  {
    if name !in s then Outcome(s, StudentNotFound)
    else
      match score
      case Malformed => Outcome(s, InvalidGradeFormat)
      case NonFinite => Outcome(s, GradeOutOfRange)
      case Finite(g) =>
        if InRange(g) then
          var grades := s[name][subject := g];
          assert grades.Keys == s[name].Keys + {subject};
          Outcome(s[name := grades], Ok)
        else Outcome(s, GradeOutOfRange)
  }

  /** Removes a student together with all of that student's grades. */
  function DeleteStudent(s: Store, name: Name): (r: Outcome)
    ensures r.status == Ok || r.status == StudentNotFound
    ensures r.status == Ok <==> name in s
    ensures r.status == StudentNotFound ==> r.store == s
    ensures r.store.Keys == s.Keys - {name}
    ensures forall n :: n in r.store ==> r.store[n] == s[n]
    ensures ScoresInRange(s) ==> ScoresInRange(r.store)
  {
    if name in s then Outcome(s - {name}, Ok)
    else Outcome(s, StudentNotFound)
  }

  /** Removes one subject's score from one student's grades. */
  function DeleteGrade(s: Store, name: Name, subject: Subject): (r: Outcome)
    ensures r.status == StudentNotFound <==> name !in s
    ensures r.status == SubjectNotFound <==> name in s && subject !in s[name]
    ensures r.status == Ok <==> name in s && subject in s[name]
    ensures r.status != Ok ==> r.store == s
    ensures r.store.Keys == s.Keys
    ensures r.status == Ok ==>
      && r.store[name].Keys == s[name].Keys - {subject}
      && |r.store[name]| == |s[name]| - 1
      && forall t :: t in r.store[name] ==> r.store[name][t] == s[name][t]
    ensures forall n :: n in s && n != name ==> r.store[n] == s[n]
    ensures ScoresInRange(s) ==> ScoresInRange(r.store)
  {
    if name !in s then Outcome(s, StudentNotFound)
    else if subject in s[name] then
      var grades := s[name] - {subject};
      assert grades.Keys == s[name].Keys - {subject};
      Outcome(s[name := grades], Ok)
    else Outcome(s, SubjectNotFound)
  }

  /**
    The mean of one student's scores; not applicable when the student is
    unknown or has no grades yet.
   */
  ghost function StudentAverage(s: Store, name: Name): (r: Average)
    ensures r.NotApplicable? <==> name !in s || s[name] == map[]
    ensures r.Mean? ==> r.value * (|s[name]| as real) == SumValues(s[name])
  {
    if name !in s then NotApplicable else MeanOf(s[name])
  }

  /** The scores recorded for `subject`, one per student who has one. */
  function SubjectColumn(s: Store, subject: Subject): (c: map<Name, real>)
    ensures forall n :: n in c <==> n in s && subject in s[n]
    ensures forall n :: n in c ==> c[n] == s[n][subject]
  {
    map n | n in s && subject in s[n] :: s[n][subject]
  }

  /**
    The mean, over the students who have a score for `subject`, of those
    scores; not applicable when no student has one.
   */
  ghost function ClassSubjectAverage(s: Store, subject: Subject): (r: Average)
    ensures r.NotApplicable? <==> forall n :: n in s ==> subject !in s[n]
    ensures r.Mean? ==>
      r.value * (|SubjectColumn(s, subject)| as real) == SumValues(SubjectColumn(s, subject))
  {
    var c := SubjectColumn(s, subject);
    assert forall n :: n in s && subject in s[n] ==> n in c;
    MeanOf(c)
  }

  // ----- Properties of the averages -----

  /** Under the store invariant a student's mean is itself a valid score. */
  lemma StudentAverageInRange(s: Store, name: Name)
    requires ScoresInRange(s)
    ensures StudentAverage(s, name).Mean? ==> InRange(StudentAverage(s, name).value)
  {
    if name in s {
      MeanWithin(s[name], 0.0, 100.0);
    }
  }

  /** Under the store invariant a class mean is itself a valid score. */
  lemma ClassSubjectAverageInRange(s: Store, subject: Subject)
    requires ScoresInRange(s)
    ensures ClassSubjectAverage(s, subject).Mean? ==> InRange(ClassSubjectAverage(s, subject).value)
  {
    MeanWithin(SubjectColumn(s, subject), 0.0, 100.0);
  }

  /** A student with grades {80, 90} averages 85. */
  lemma StudentAverageExample()
    ensures StudentAverage(map["A" := map["Math" := 80.0, "Art" := 90.0]], "A") == Mean(85.0)
  {
    var math: Grades := map["Math" := 80.0];
    assert "Art" !in math;
    SumValuesInsert(map[], "Math", 80.0);
    assert map[]["Math" := 80.0] == math;
    SumValuesInsert(math, "Art", 90.0);
    assert math["Art" := 90.0] == map["Math" := 80.0, "Art" := 90.0];
    assert |math["Art" := 90.0]| == 2;
  }

  /** The three-student store of the class-average examples. */
  function ExampleClass(): Store
  {
    map["A" := map["Math" := 100.0], "B" := map["Math" := 50.0], "C" := map[]]
  }

  /** Math scores {A: 100, B: 50} and a student C without one average 75. */
  lemma ClassSubjectAverageExample()
    ensures ClassSubjectAverage(ExampleClass(), "Math") == Mean(75.0)
  {
    var s := ExampleClass();
    var a: map<Name, real> := map["A" := 100.0];
    var ab := a["B" := 50.0];
    var c := SubjectColumn(s, "Math");
    assert "Math" !in s["C"];
    assert c.Keys == ab.Keys;
    assert c == ab;
    SumValuesInsert(map[], "A", 100.0);
    assert map[]["A" := 100.0] == a;
    SumValuesInsert(a, "B", 50.0);
    assert |ab| == 2;
  }

  /** No student of the example has a score for Art, so its class average is not applicable. */
  lemma ClassSubjectAverageAbsentExample()
    ensures ClassSubjectAverage(ExampleClass(), "Art") == NotApplicable
  {
  }

  // ----- Relations between the operations -----

  /** Each mutator keeps the store invariant: the only write of a score is range-checked. */
  lemma MutatorsPreserveScoresInRange(s: Store, name: Name, subject: Subject, score: ParsedScore)
    requires ScoresInRange(s)
    ensures ScoresInRange(AddStudent(s, name).store)
    ensures ScoresInRange(AddGrade(s, name, subject, score).store)
    ensures ScoresInRange(DeleteStudent(s, name).store)
    ensures ScoresInRange(DeleteGrade(s, name, subject).store)
  {
  }

  /** Deleting a student that was just added gives back the original store. */
  lemma DeleteStudentUndoesAddStudent(s: Store, name: Name)
    requires name !in s
    ensures DeleteStudent(AddStudent(s, name).store, name) == Outcome(s, Ok)
  {
  }

  /** Deleting a grade for a subject that was just added gives back the original store. */
  lemma DeleteGradeUndoesAddGrade(s: Store, name: Name, subject: Subject, g: real)
    requires name in s && subject !in s[name] && InRange(g)
    ensures DeleteGrade(AddGrade(s, name, subject, Finite(g)).store, name, subject) == Outcome(s, Ok)
  {
    assert s[name][subject := g] - {subject} == s[name];
    assert s[name := s[name]] == s;
  }

  /** Recording the same score twice is the same as recording it once. */
  lemma AddGradeIdempotent(s: Store, name: Name, subject: Subject, score: ParsedScore)
    ensures var once := AddGrade(s, name, subject, score);
      AddGrade(once.store, name, subject, score).store == once.store
  {
    var once := AddGrade(s, name, subject, score);
    if once.status == Ok {
      var g := score.value;
      assert once.store[name] == s[name][subject := g];
      assert once.store[name][subject := g] == once.store[name];
      assert once.store[name := once.store[name]] == once.store;
    }
  }

  /**
    A successful upsert moves the student's total by the new score, minus
    the score it replaces when the subject was already graded.
   */
  lemma AddGradeShiftsTotal(s: Store, name: Name, subject: Subject, g: real)
    requires name in s && InRange(g)
    ensures SumValues(AddGrade(s, name, subject, Finite(g)).store[name]) ==
      SumValues(s[name]) + g - (if subject in s[name] then s[name][subject] else 0.0)
  {
    if subject in s[name] {
      SumValuesUpdate(s[name], subject, g);
    } else {
      SumValuesInsert(s[name], subject, g);
    }
  }

  /** Removing a graded subject takes its score out of the student's total. */
  lemma DeleteGradeShiftsTotal(s: Store, name: Name, subject: Subject)
    requires name in s && subject in s[name]
    ensures SumValues(DeleteGrade(s, name, subject).store[name]) == SumValues(s[name]) - s[name][subject]
  {
    SumValuesRemove(s[name], subject);
  }

  /** A deleted student has no average, however many grades the student had. */
  lemma DeletedStudentHasNoAverage(s: Store, name: Name)
    ensures StudentAverage(DeleteStudent(s, name).store, name) == NotApplicable
  {
  }

  /** Adding a student leaves every class mean as it was: the new student has no scores. */
  lemma AddStudentKeepsClassAverage(s: Store, name: Name, subject: Subject)
    ensures ClassSubjectAverage(AddStudent(s, name).store, subject) == ClassSubjectAverage(s, subject)
  {
    assert SubjectColumn(AddStudent(s, name).store, subject) == SubjectColumn(s, subject);
  }

  /** Recording a score for another subject leaves a class mean as it was. */
  lemma AddGradeKeepsOtherClassAverage(s: Store, name: Name, subject: Subject, other: Subject, score: ParsedScore)
    requires other != subject
    ensures ClassSubjectAverage(AddGrade(s, name, other, score).store, subject) == ClassSubjectAverage(s, subject)
  {
    assert SubjectColumn(AddGrade(s, name, other, score).store, subject) == SubjectColumn(s, subject);
  }

  /** Removing a score for another subject leaves a class mean as it was. */
  lemma DeleteGradeKeepsOtherClassAverage(s: Store, name: Name, subject: Subject, other: Subject)
    requires other != subject
    ensures ClassSubjectAverage(DeleteGrade(s, name, other).store, subject) == ClassSubjectAverage(s, subject)
  {
    assert SubjectColumn(DeleteGrade(s, name, other).store, subject) == SubjectColumn(s, subject);
  }

  /**
    Adding one more student to the part of the store already scanned adds
    that student's score, if there is one, to the column of `subject`.
   */
  lemma SubjectColumnInsert(d: Store, name: Name, grades: Grades, subject: Subject)
    requires name !in d
    ensures SubjectColumn(d[name := grades], subject) ==
      if subject in grades then SubjectColumn(d, subject)[name := grades[subject]]
      else SubjectColumn(d, subject)
    ensures name !in SubjectColumn(d, subject)
  {
  }
}
