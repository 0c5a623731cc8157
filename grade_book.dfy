/**
  The application's single mutable store, as an object whose one field is
  updated in place by the four mutators, and the class-average query that
  scans every student with an accumulator loop.

  Each mutator's new state and status are those of the matching function of
  `GradeStore`, so what is proved there about the operations (the store
  invariant, the inverse pairs, idempotence) holds of the object too.
 */
module GradeBook {
  import opened Sums
  import GradeStore

  class Book {
    /** Every student's grades, by student name and then by subject. */
    var data: GradeStore.Store

    /** Starts with no students, as the application does before loading its file. */
    constructor ()
      ensures data == map[]
    {
      data := map[];
    }

    /** Adds `name` with no grades, unless that name is already recorded. */
    method AddStudent(name: GradeStore.Name) returns (status: GradeStore.Status)
      modifies this
      ensures GradeStore.Outcome(data, status) == GradeStore.AddStudent(old(data), name)
      ensures GradeStore.ScoresInRange(old(data)) ==> GradeStore.ScoresInRange(data)
    {
      if name in data {
        status := GradeStore.DuplicateStudent;
      } else {
        data := data[name := map[]];
        status := GradeStore.Ok;
      }
    }

    /** Records or replaces `name`'s score for `subject`, when the student exists and the score is valid. */
    method AddGrade(name: GradeStore.Name, subject: GradeStore.Subject, score: GradeStore.ParsedScore)
      returns (status: GradeStore.Status)
      modifies this
      ensures GradeStore.Outcome(data, status) == GradeStore.AddGrade(old(data), name, subject, score)
      ensures GradeStore.ScoresInRange(old(data)) ==> GradeStore.ScoresInRange(data)
    {
      if name !in data {
        status := GradeStore.StudentNotFound;
        return;
      }
      match score {
        case Malformed =>
          status := GradeStore.InvalidGradeFormat;
        case NonFinite =>
          status := GradeStore.GradeOutOfRange;
        case Finite(g) =>
          if GradeStore.InRange(g) {
            data := data[name := data[name][subject := g]];
            status := GradeStore.Ok;
          } else {
            status := GradeStore.GradeOutOfRange;
          }
      }
    }

    /** Removes `name` and all of that student's grades, when the student exists. */
    method DeleteStudent(name: GradeStore.Name) returns (status: GradeStore.Status)
      modifies this
      ensures GradeStore.Outcome(data, status) == GradeStore.DeleteStudent(old(data), name)
      ensures GradeStore.ScoresInRange(old(data)) ==> GradeStore.ScoresInRange(data)
    {
      if name in data {
        data := data - {name};
        status := GradeStore.Ok;
      } else {
        status := GradeStore.StudentNotFound;
      }
    }

    /** Removes `name`'s score for `subject`, when both exist. */
    method DeleteGrade(name: GradeStore.Name, subject: GradeStore.Subject) returns (status: GradeStore.Status)
      modifies this
      ensures GradeStore.Outcome(data, status) == GradeStore.DeleteGrade(old(data), name, subject)
      ensures GradeStore.ScoresInRange(old(data)) ==> GradeStore.ScoresInRange(data)
    {
      if name !in data {
        status := GradeStore.StudentNotFound;
        return;
      }
      if subject in data[name] {
        data := data[name := data[name] - {subject}];
        status := GradeStore.Ok;
      } else {
        status := GradeStore.SubjectNotFound;
      }
    }

    /**
      The class average for `subject`: visits every student once, adding the
      score and counting the student whenever the student has one, then
      divides; not applicable when nobody was counted.
     */
    method ClassSubjectAverage(subject: GradeStore.Subject) returns (avg: Average)
      ensures avg == GradeStore.ClassSubjectAverage(data, subject)
    {
      var total := 0.0;
      var count := 0;
      var pending := data.Keys;
      assert data - pending == map[];
      while pending != {}
        invariant pending <= data.Keys
        invariant Scanned(data, pending, subject, total, count)
        decreases pending
      {
        var name :| name in pending;
        ScanAdvance(data, pending, name, subject, total, count);
        var grades := data[name];
        if subject in grades {
          total := total + grades[subject];
          count := count + 1;
        }
        pending := pending - {name};
      }
      ScanComplete(data, subject, total, count);
      if count == 0 {
        avg := NotApplicable;
      } else {
        avg := Mean(total / (count as real));
      }
    }
  }

  /**
    The loop's accumulators after the students outside `pending` have been
    visited: the sum and the number of the scores for `subject` among them.
   */
  ghost predicate Scanned(d: GradeStore.Store, pending: set<GradeStore.Name>, subject: GradeStore.Subject,
                          total: real, count: int)
  {
    var seen := GradeStore.SubjectColumn(d - pending, subject);
    total == SumValues(seen) && count == |seen|
  }

  /** Visiting one more student adds that student's score, if any, to the accumulators. */
  lemma ScanAdvance(d: GradeStore.Store, pending: set<GradeStore.Name>, name: GradeStore.Name,
                    subject: GradeStore.Subject, total: real, count: int)
    requires name in pending && pending <= d.Keys
    requires Scanned(d, pending, subject, total, count)
    ensures subject in d[name] ==> Scanned(d, pending - {name}, subject, total + d[name][subject], count + 1)
    ensures subject !in d[name] ==> Scanned(d, pending - {name}, subject, total, count)
  {
    var seen := d - pending;
    ScanStep(d, pending, name);
    GradeStore.SubjectColumnInsert(seen, name, d[name], subject);
    if subject in d[name] {
      SumValuesInsert(GradeStore.SubjectColumn(seen, subject), name, d[name][subject]);
    }
  }

  /** Once every student has been visited, the accumulators give the class average. */
  lemma ScanComplete(d: GradeStore.Store, subject: GradeStore.Subject, total: real, count: int)
    requires Scanned(d, {}, subject, total, count)
    ensures GradeStore.ClassSubjectAverage(d, subject) ==
      if count == 0 then NotApplicable else Mean(total / (count as real))
  {
    assert d - {} == d;
  }

  /** Moving one student from the pending set to the scanned part of the store. */
  lemma ScanStep(d: GradeStore.Store, pending: set<GradeStore.Name>, name: GradeStore.Name)
    requires name in pending && name in d
    ensures d - (pending - {name}) == (d - pending)[name := d[name]]
  {
  }
}
