/**
 * EnrollmentService: enrolling the current user in a course, and the
 * progress summary of one enrollment (totals, completed count, rounded
 * percentage and the completed items). The current user is a parameter.
 */
module EnrollmentService {
  import opened Common
  import opened Content
  import opened CourseService
  import opened ProgressEntity
  import opened Database

  datatype EnrollmentResponse = EnrollmentResponse(enrollmentId: nat, courseId: string, courseTitle: string, enrolledAt: Timestamp)

  /** The Conflict raised for a second enrollment in the same course. */
  const AlreadyEnrolled: Failure := Conflict("Already enrolled", "You are already enrolled in this course")

  /**
   * enrollInCourse as a function of the enrollments table: the response or
   * failure, and the table afterwards. The course lookup comes before the
   * duplicate check.
   */
  function Enroll(courses: seq<Course>, enrollments: seq<Enrollment>, userId: nat, courseId: string, now: Timestamp)
    : (Result<EnrollmentResponse>, seq<Enrollment>)
  {
    match FindCourse(courses, courseId)
    case None => (Err(CourseNotFound(courseId)), enrollments)
    case Some(course) =>
      if IsEnrolled(enrollments, userId, courseId) then (Err(AlreadyEnrolled), enrollments)
      else
        var saved := Enrollment(|enrollments| + 1, userId, course, now);
        (Ok(EnrollmentResponse(saved.id, course.id, course.title, saved.enrolledAt)), enrollments + [saved])
  }

  /** An unknown course fails with NotFound and writes nothing, whatever the user's enrollments. */
  lemma EnrollUnknownCourse(courses: seq<Course>, enrollments: seq<Enrollment>, userId: nat, courseId: string, now: Timestamp)
    requires forall c :: c in courses ==> c.id != courseId
    ensures Enroll(courses, enrollments, userId, courseId, now) == (Err(CourseNotFound(courseId)), enrollments)
  {
  }

  /** Enrolling again in a known course fails with Conflict and writes nothing. */
  lemma EnrollDuplicate(courses: seq<Course>, enrollments: seq<Enrollment>, userId: nat, courseId: string, now: Timestamp)
    requires exists c :: c in courses && c.id == courseId
    requires exists e :: e in enrollments && e.userId == userId && e.course.id == courseId
    ensures Enroll(courses, enrollments, userId, courseId, now) == (Err(AlreadyEnrolled), enrollments)
  {
  }

  /**
   * A first enrollment in a known course appends exactly one row, for this
   * user and this catalog course, under the next id; every earlier row is
   * kept as it was, and the response describes the new row.
   */
  lemma EnrollSuccess(courses: seq<Course>, enrollments: seq<Enrollment>, userId: nat, courseId: string, now: Timestamp)
    requires exists c :: c in courses && c.id == courseId
    requires forall e :: e in enrollments ==> !(e.userId == userId && e.course.id == courseId)
    ensures var (r, after) := Enroll(courses, enrollments, userId, courseId, now);
      && |after| == |enrollments| + 1 && after[..|enrollments|] == enrollments
      && var e := after[|enrollments|];
      && e.id == |enrollments| + 1 && e.userId == userId && e.course.id == courseId && e.course in courses
      && e.enrolledAt == now
      && r == Ok(EnrollmentResponse(e.id, courseId, e.course.title, now))
  {
  }

  /** Enrolling keeps the enrollments table valid: next ids, catalog courses, one row per (user, course). */
  lemma EnrollPreservesValid(courses: seq<Course>, enrollments: seq<Enrollment>, userId: nat, courseId: string, now: Timestamp)
    requires EnrollmentsValid(courses, enrollments)
    ensures EnrollmentsValid(courses, Enroll(courses, enrollments, userId, courseId, now).1)
  {
    var after := Enroll(courses, enrollments, userId, courseId, now).1;
    if after != enrollments {
      var e := after[|enrollments|];
      forall i | 0 <= i < |enrollments|
        ensures !(after[i].userId == e.userId && after[i].course.id == e.course.id)
      {
        assert after[i] in enrollments;
      }
    }
  }

  /** A second enrollment right after a successful one fails with Conflict and leaves the one row. */
  lemma EnrollTwiceConflicts(courses: seq<Course>, enrollments: seq<Enrollment>, userId: nat, courseId: string,
                             now: Timestamp, later: Timestamp)
    requires Enroll(courses, enrollments, userId, courseId, now).0.Ok?
    ensures var after := Enroll(courses, enrollments, userId, courseId, now).1;
            Enroll(courses, after, userId, courseId, later) == (Err(AlreadyEnrolled), after)
  {
    var after := Enroll(courses, enrollments, userId, courseId, now).1;
    assert after[|after| - 1] in after;
  }

  /**
   * enrollInCourse: looks the course up, rejects a duplicate, and inserts the
   * enrollment, keeping the database valid.
   */
  method EnrollInCourse(store: Store, userId: nat, courseId: string, now: Timestamp) returns (r: Result<EnrollmentResponse>)
    requires store.Valid()
    modifies store
    ensures store.Valid()
    ensures (r, store.enrollments) == Enroll(store.courses, old(store.enrollments), userId, courseId, now)
    ensures store.progress == old(store.progress)
  {
    EnrollPreservesValid(store.courses, store.enrollments, userId, courseId, now);
    var found := FindCourse(store.courses, courseId);
    if found.None? {
      return Err(CourseNotFound(courseId));
    }
    var course := found.value;
    if IsEnrolled(store.enrollments, userId, courseId) {
      return Err(AlreadyEnrolled);
    }
    var saved := store.InsertEnrollment(userId, course, now);
    r := Ok(EnrollmentResponse(saved.id, course.id, course.title, saved.enrolledAt));
  }

  // ----- getEnrollmentProgress -----

  datatype CompletedItem = CompletedItem(subtopicId: string, subtopicTitle: string, completedAt: Option<Timestamp>)

  /** The progress summary; `percentage` is in hundredths of a percent (2500 is 25.00). */
  datatype ProgressResponse = ProgressResponse(
    enrollmentId: nat,
    courseId: string,
    courseTitle: string,
    totalSubtopics: nat,
    completedSubtopics: nat,
    percentage: nat,
    completedItems: seq<CompletedItem>)

  const EnrollmentNotFound: Failure := NotFound("Enrollment not found")

  const NotOwner: Failure := Forbidden("Access denied", "You can only view your own progress")

  /**
   * `completed * 100 / total` rounded half-up to two decimals, in
   * hundredths: the integer nearest to `completed * 10000 / total`, halves
   * rounded up; 0 when there is nothing to complete.
   */
  function RoundedPercent(completed: nat, total: nat): (p: nat)
    ensures total == 0 ==> p == 0
  {
    if total == 0 then 0 else (20000 * completed + total) / (2 * total)
  }

  /** Multiplying by a natural number keeps the order. */
  lemma MultiplyMonotone(d: nat, a: nat, b: nat)
    requires a <= b
    ensures d * a <= d * b
  {
    assert d * b == d * a + d * (b - a);
  }

  /** Integer division is determined by its bracketing multiples. */
  lemma DivisionByBracket(n: nat, d: nat, q: nat)
    requires d > 0 && d * q <= n < d * q + d
    ensures n / d == q
  {
    var r, m := n / d, n % d;
    assert n == d * r + m && 0 <= m < d;
    if r < q {
      MultiplyMonotone(d, r + 1, q);
    } else if r > q {
      MultiplyMonotone(d, q + 1, r);
    }
  }

  /**
   * The rounding is to the nearest hundredth with halves going up:
   * `p - 1/2 <= completed * 10000 / total < p + 1/2`.
   */
  lemma RoundedPercentNearest(completed: nat, total: nat)
    requires total > 0
    ensures var p := RoundedPercent(completed, total);
            2 * total * p - total <= 20000 * completed < 2 * total * p + total
  {
    var p := RoundedPercent(completed, total);
    var n, d := 20000 * completed + total, 2 * total;
    assert d * p <= n < d * p + d by {
      assert n == d * (n / d) + n % d;
    }
  }

  /** Everything completed is exactly 100.00; one of four is 25.00; nothing completed is 0.00. */
  lemma RoundedPercentExamples(total: nat)
    ensures RoundedPercent(0, total) == 0
    ensures total > 0 ==> RoundedPercent(total, total) == 10000
    ensures RoundedPercent(1, 4) == 2500
  {
    if total > 0 {
      DivisionByBracket(total, 2 * total, 0);
      DivisionByBracket(20000 * total + total, 2 * total, 10000);
    }
    DivisionByBracket(20004, 8, 2500);
  }

  /** The percentage never exceeds 100.00 while the completed count stays within the total. */
  lemma RoundedPercentAtMostHundred(completed: nat, total: nat)
    requires completed <= total
    ensures RoundedPercent(completed, total) <= 10000
  {
    if total > 0 {
      var p := RoundedPercent(completed, total);
      RoundedPercentNearest(completed, total);
      assert 2 * total * p < 2 * total * 10001;
      if p > 10000 {
        MultiplyMonotone(2 * total, 10001, p);
      }
    }
  }

  /** SubtopicProgressRepository.findByUserIdAndCourseId: the user's rows for subtopics of that course, in table order. */
  function CourseProgress(progress: seq<ProgressRow>, userId: nat, courseId: string): seq<ProgressRow> {
    Filter((row: ProgressRow) => row.userId == userId && row.subtopic.courseId == courseId, progress)
  }

  /** The completed rows among them, in the same order. */
  function CompletedRows(rows: seq<ProgressRow>): seq<ProgressRow> {
    Filter((row: ProgressRow) => row.completed, rows)
  }

  /** One completed item per completed row, in row order. */
  function CompletedItems(rows: seq<ProgressRow>): (r: seq<CompletedItem>)
    ensures |r| == |rows|
    ensures forall i :: 0 <= i < |rows| ==>
              r[i] == CompletedItem(rows[i].subtopic.subtopic.id, rows[i].subtopic.subtopic.title, rows[i].completedAt)
  {
    seq(|rows|, i requires 0 <= i < |rows| =>
      CompletedItem(rows[i].subtopic.subtopic.id, rows[i].subtopic.subtopic.title, rows[i].completedAt))
  }

  /** The per-course query returns exactly the user's rows for that course, in table order. */
  lemma CourseProgressExact(progress: seq<ProgressRow>, userId: nat, courseId: string)
    ensures IsSubsequence(CourseProgress(progress, userId, courseId), progress)
    ensures forall row :: row in CourseProgress(progress, userId, courseId) <==>
              row in progress && row.userId == userId && row.subtopic.courseId == courseId
  {
    FilterExact((row: ProgressRow) => row.userId == userId && row.subtopic.courseId == courseId, progress);
  }

  /** The completed rows are exactly the completed ones among the given rows, in their order. */
  lemma CompletedRowsExact(rows: seq<ProgressRow>)
    ensures IsSubsequence(CompletedRows(rows), rows)
    ensures forall row :: row in CompletedRows(rows) <==> row in rows && row.completed
  {
    FilterExact((row: ProgressRow) => row.completed, rows);
  }

  /**
   * getEnrollmentProgress: the enrollment must exist (NotFound) and belong to
   * the user (Forbidden); the summary counts the course's subtopics and the
   * user's completed rows for it. It only reads the tables.
   */
  function GetEnrollmentProgress(enrollments: seq<Enrollment>, progress: seq<ProgressRow>, enrollmentId: nat, userId: nat)
    : Result<ProgressResponse>
  {
    match FindEnrollment(enrollments, enrollmentId)
    case None => Err(EnrollmentNotFound)
    case Some(e) =>
      if e.userId != userId then Err(NotOwner)
      else
        var total := SubtopicCount(e.course);
        var completed := CompletedRows(CourseProgress(progress, userId, e.course.id));
        Ok(ProgressResponse(e.id, e.course.id, e.course.title, total, |completed|,
                            RoundedPercent(|completed|, total), CompletedItems(completed)))
  }

  /** An unknown enrollment id is NotFound; another user's enrollment is Forbidden; NotFound is decided first. */
  lemma ProgressFailures(enrollments: seq<Enrollment>, progress: seq<ProgressRow>, enrollmentId: nat, userId: nat)
    ensures (forall e :: e in enrollments ==> e.id != enrollmentId) ==>
              GetEnrollmentProgress(enrollments, progress, enrollmentId, userId) == Err(EnrollmentNotFound)
    ensures FindEnrollment(enrollments, enrollmentId).Some? &&
            FindEnrollment(enrollments, enrollmentId).value.userId != userId ==>
              GetEnrollmentProgress(enrollments, progress, enrollmentId, userId) == Err(NotOwner)
  {
  }

  /**
   * For the owner, the summary's total is the number of the course's
   * subtopics; the completed count is the number of the user's completed
   * rows for that course, which are exactly those rows of the table, in
   * table order; there is one completed item per such row, in the same
   * order; and the percentage is their rounded share.
   */
  lemma ProgressSummary(enrollments: seq<Enrollment>, progress: seq<ProgressRow>, enrollmentId: nat, userId: nat)
    requires FindEnrollment(enrollments, enrollmentId).Some?
    requires FindEnrollment(enrollments, enrollmentId).value.userId == userId
    ensures var e := FindEnrollment(enrollments, enrollmentId).value;
            var r := GetEnrollmentProgress(enrollments, progress, enrollmentId, userId);
            var rows := CompletedRows(CourseProgress(progress, userId, e.course.id));
            && r.Ok? && r.value.enrollmentId == enrollmentId && r.value.courseId == e.course.id
            && r.value.totalSubtopics == |AllSubtopics(e.course)|
            && r.value.completedSubtopics == |rows|
            && (forall row :: row in rows <==>
                  row in progress && row.userId == userId && row.subtopic.courseId == e.course.id && row.completed)
            && IsSubsequence(rows, progress)
            && |r.value.completedItems| == r.value.completedSubtopics
            && (forall i :: 0 <= i < |rows| ==> r.value.completedItems[i].subtopicId == rows[i].subtopic.subtopic.id)
            && r.value.percentage == RoundedPercent(r.value.completedSubtopics, r.value.totalSubtopics)
  {
    var e := FindEnrollment(enrollments, enrollmentId).value;
    var mine := CourseProgress(progress, userId, e.course.id);
    SubtopicCountIsNumberOfSubtopics(e.course);
    CourseProgressExact(progress, userId, e.course.id);
    CompletedRowsExact(mine);
    SubsequenceTransitive(CompletedRows(mine), mine, progress);
  }

  /** Two progress rows are for different (user, subtopic) pairs. */
  predicate DifferentKeys(a: ProgressRow, b: ProgressRow) {
    !HasKey(b, a.userId, a.subtopic.subtopic.id)
  }

  function RowSubtopicId(row: ProgressRow): string { row.subtopic.subtopic.id }

  /** Selecting the user's completed rows for a course keeps distinct keys distinct. */
  lemma CompletedRowsDistinct(progress: seq<ProgressRow>, userId: nat, courseId: string)
    requires Pairwise(progress, DifferentKeys)
    ensures Pairwise(CompletedRows(CourseProgress(progress, userId, courseId)), DifferentKeys)
  {
    FilterPairwise((row: ProgressRow) => row.userId == userId && row.subtopic.courseId == courseId, progress, DifferentKeys);
    FilterPairwise((row: ProgressRow) => row.completed, CourseProgress(progress, userId, courseId), DifferentKeys);
  }

  /**
   * Rows of one user for subtopics of one catalog course, with distinct
   * keys, are no more than the course's subtopics.
   */
  lemma RowsWithinCourse(courses: seq<Course>, course: Course, userId: nat, rows: seq<ProgressRow>)
    requires UniqueCourseIds(courses) && course in courses
    requires Pairwise(rows, DifferentKeys)
    requires forall row :: row in rows ==>
               row.userId == userId && row.subtopic.courseId == course.id && InCatalog(courses, row.subtopic)
    ensures |rows| <= |AllSubtopics(course)|
  {
    var ids := Keys(RowSubtopicId, rows);
    var all := Keys(SubtopicId, AllSubtopics(course));
    forall i, j | 0 <= i < j < |ids| ensures ids[i] != ids[j] {
      assert DifferentKeys(rows[i], rows[j]);
      assert rows[i] in rows && rows[j] in rows;
    }
    forall id | id in ids ensures id in all {
      var i :| 0 <= i < |ids| && ids[i] == id;
      var row := rows[i];
      assert row in rows;
      var c :| c in courses && c.id == row.subtopic.courseId && row.subtopic.subtopic in AllSubtopics(c);
      SameIdSameCourse(courses, c, course);
      var t :| 0 <= t < |AllSubtopics(course)| && AllSubtopics(course)[t] == row.subtopic.subtopic;
      assert all[t] == id;
    }
    DistinctWithin(ids, all);
  }

  /**
   * In a valid database the completed count never exceeds the course's
   * subtopic count, so the percentage never exceeds 100.00: each completed
   * row names a different subtopic of that very course.
   */
  lemma CompletedWithinTotal(courses: seq<Course>, enrollments: seq<Enrollment>, progress: seq<ProgressRow>,
                             enrollmentId: nat, userId: nat)
    requires UniqueCourseIds(courses) && EnrollmentsValid(courses, enrollments) && ProgressValid(courses, progress)
    requires GetEnrollmentProgress(enrollments, progress, enrollmentId, userId).Ok?
    ensures var r := GetEnrollmentProgress(enrollments, progress, enrollmentId, userId).value;
            r.completedSubtopics <= r.totalSubtopics && r.percentage <= 10000
  {
    var e := FindEnrollment(enrollments, enrollmentId).value;
    var course := e.course;
    var k :| 0 <= k < |enrollments| && enrollments[k] == e;
    assert course in courses;
    var mine := CourseProgress(progress, userId, course.id);
    var rows := CompletedRows(mine);
    assert Pairwise(progress, DifferentKeys);
    CompletedRowsDistinct(progress, userId, course.id);
    CourseProgressExact(progress, userId, course.id);
    CompletedRowsExact(mine);
    forall row | row in rows
      ensures row.userId == userId && row.subtopic.courseId == course.id && InCatalog(courses, row.subtopic)
    {
      var m :| 0 <= m < |progress| && progress[m] == row;
    }
    RowsWithinCourse(courses, course, userId, rows);
    SubtopicCountIsNumberOfSubtopics(course);
    RoundedPercentAtMostHundred(|rows|, SubtopicCount(course));
  }
}
