/**
 * The persistent state behind the services: the course catalog, the
 * enrollments table and the subtopic_progress table, with the repository
 * queries the services issue and the constraints the database keeps
 * (IDENTITY ids, the unique (user, course) enrollment and the unique
 * (user_id, subtopic_id) progress record).
 */
module Database {
  import opened Common
  import opened Content
  import opened ProgressEntity

  /** An enrollments row; the course is the entity the enrollment references. */
  datatype Enrollment = Enrollment(id: nat, userId: nat, course: Course, enrolledAt: Timestamp)

  /** EnrollmentRepository.existsByUserIdAndCourseId. */
  predicate IsEnrolled(enrollments: seq<Enrollment>, userId: nat, courseId: string) {
    exists e :: e in enrollments && e.userId == userId && e.course.id == courseId
  }

  /** EnrollmentRepository.findById: the enrollment with that id, if any. */
  function FindEnrollment(enrollments: seq<Enrollment>, id: nat): (r: Option<Enrollment>)
    ensures r.Some? ==> r.value in enrollments && r.value.id == id
    ensures r.None? <==> forall e :: e in enrollments ==> e.id != id
  {
    if |enrollments| == 0 then None
    else if enrollments[0].id == id then Some(enrollments[0])
    else FindEnrollment(enrollments[1..], id)
  }

  /** The progress row belongs to this user and this subtopic. */
  predicate HasKey(row: ProgressRow, userId: nat, subtopicId: string) {
    row.userId == userId && row.subtopic.subtopic.id == subtopicId
  }

  /**
   * SubtopicProgressRepository.findByUserIdAndSubtopicId, as the position
   * of the first row with that key at or after `from`.
   */
  function FindProgressFrom(progress: seq<ProgressRow>, userId: nat, subtopicId: string, from: nat): (r: Option<nat>)
    requires from <= |progress|
    ensures r.Some? ==> from <= r.value < |progress| && HasKey(progress[r.value], userId, subtopicId)
    ensures r.Some? ==> forall i :: from <= i < r.value ==> !HasKey(progress[i], userId, subtopicId)
    ensures r.None? <==> forall i :: from <= i < |progress| ==> !HasKey(progress[i], userId, subtopicId)
    decreases |progress| - from
  {
    if from == |progress| then None
    else if HasKey(progress[from], userId, subtopicId) then Some(from)
    else FindProgressFrom(progress, userId, subtopicId, from + 1)
  }

  /** The position of the user's progress row for the subtopic, if there is one. */
  function FindProgress(progress: seq<ProgressRow>, userId: nat, subtopicId: string): (r: Option<nat>)
    ensures r.Some? ==> r.value < |progress| && HasKey(progress[r.value], userId, subtopicId)
    ensures r.Some? ==> forall i :: 0 <= i < r.value ==> !HasKey(progress[i], userId, subtopicId)
    ensures r.None? <==> forall i :: 0 <= i < |progress| ==> !HasKey(progress[i], userId, subtopicId)
  {
    FindProgressFrom(progress, userId, subtopicId, 0)
  }

  /** The lookup finds the first row with the key. */
  lemma FindProgressFirst(progress: seq<ProgressRow>, userId: nat, subtopicId: string, k: nat)
    requires k < |progress| && HasKey(progress[k], userId, subtopicId)
    requires forall i :: 0 <= i < k ==> !HasKey(progress[i], userId, subtopicId)
    ensures FindProgress(progress, userId, subtopicId) == Some(k)
  {
  }

  /** The subtopic reference names a subtopic of the catalog course it claims to belong to. */
  ghost predicate InCatalog(courses: seq<Course>, ref: SubtopicRef) {
    exists c :: c in courses && c.id == ref.courseId && ref.subtopic in AllSubtopics(c)
  }

  /**
   * The enrollments table: IDENTITY ids 1, 2, ... in insertion order, each
   * referencing a catalog course, and at most one row per (user, course).
   */
  ghost predicate EnrollmentsValid(courses: seq<Course>, enrollments: seq<Enrollment>) {
    && (forall i :: 0 <= i < |enrollments| ==> enrollments[i].id == i + 1 && enrollments[i].course in courses)
    && (forall i, j :: 0 <= i < j < |enrollments| ==>
          !(enrollments[i].userId == enrollments[j].userId && enrollments[i].course.id == enrollments[j].course.id))
  }

  /**
   * The subtopic_progress table: IDENTITY ids, each row referencing a
   * catalog subtopic, completed rows stamped, and at most one row per
   * (user_id, subtopic_id).
   */
  ghost predicate ProgressValid(courses: seq<Course>, progress: seq<ProgressRow>) {
    && (forall i :: 0 <= i < |progress| ==>
          && progress[i].id == i + 1
          && InCatalog(courses, progress[i].subtopic)
          && (progress[i].completed ==> progress[i].completedAt.Some?))
    && (forall i, j :: 0 <= i < j < |progress| ==>
          !HasKey(progress[j], progress[i].userId, progress[i].subtopic.subtopic.id))
  }

  /** The database: a fixed catalog and the two tables the services write. */
  class Store {
    const courses: seq<Course>
    var enrollments: seq<Enrollment>
    var progress: seq<ProgressRow>

    ghost predicate Valid()
      reads this
    {
      UniqueCourseIds(courses) && EnrollmentsValid(courses, enrollments) && ProgressValid(courses, progress)
    }

    /** A database holding the catalog and no enrollments or progress yet. */
    constructor (catalog: seq<Course>)
      requires UniqueCourseIds(catalog)
      ensures Valid()
      ensures courses == catalog && enrollments == [] && progress == []
    {
      courses := catalog;
      enrollments := [];
      progress := [];
    }

    /** EnrollmentRepository.save of a new enrollment: the row gets the next id. */
    method InsertEnrollment(userId: nat, course: Course, enrolledAt: Timestamp) returns (saved: Enrollment)
      modifies this
      ensures saved == Enrollment(|old(enrollments)| + 1, userId, course, enrolledAt)
      ensures enrollments == old(enrollments) + [saved]
      ensures progress == old(progress)
    {
      saved := Enrollment(|enrollments| + 1, userId, course, enrolledAt);
      enrollments := enrollments + [saved];
    }

    /**
     * SubtopicProgressRepository.save: a record without an id is inserted
     * under the next id after `@PrePersist`; a record with an id overwrites
     * its row after `@PreUpdate`. The record object gets the saved state.
     */
    method SaveProgress(p: SubtopicProgress, now: Timestamp) returns (saved: ProgressRow)
      requires p.user.Some? && p.subtopic.Some?
      requires p.id.Some? ==> 1 <= p.id.value <= |progress|
      modifies this, p
      ensures saved.id == (if old(p.id).Some? then old(p.id).value else |old(progress)| + 1)
      ensures saved.userId == old(p.user).value && saved.subtopic == old(p.subtopic).value
      ensures saved.completed == old(p.completed)
      ensures saved.completedAt == Stamped(old(p.completed), old(p.completedAt), now)
      ensures progress == if old(p.id).None? then old(progress) + [saved] else old(progress)[saved.id - 1 := saved]
      ensures enrollments == old(enrollments)
      ensures p.id == Some(saved.id) && p.completed == saved.completed && p.completedAt == saved.completedAt
      ensures p.user == old(p.user) && p.subtopic == old(p.subtopic)
    {
      if p.id.None? {
        p.OnCreate(now);
        saved := ProgressRow(|progress| + 1, p.user.value, p.subtopic.value, p.completed, p.completedAt);
        progress := progress + [saved];
        p.id := Some(saved.id);
      } else {
        p.OnUpdate(now);
        saved := ProgressRow(p.id.value, p.user.value, p.subtopic.value, p.completed, p.completedAt);
        progress := progress[saved.id - 1 := saved];
      }
    }
  }
}
