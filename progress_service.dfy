/**
 * ProgressService: marking a subtopic complete for the current user. The
 * subtopic must exist and the user must be enrolled in the course that owns
 * it; the user's progress record for the subtopic is then created or
 * updated so that it is completed, keeping the first completion time.
 */
module ProgressService {
  import opened Common
  import opened Content
  import opened ProgressEntity
  import opened Database

  datatype CompletionResponse = CompletionResponse(subtopicId: string, completed: bool, completedAt: Option<Timestamp>)

  function SubtopicNotFound(subtopicId: string): Failure {
    NotFound("Subtopic with id '" + subtopicId + "' does not exist")
  }

  const NotEnrolled: Failure := Forbidden("Forbidden", "You must be enrolled in this course to mark subtopics as complete")

  /**
   * The find-or-create step on values: the user's record for the subtopic is
   * completed in place (its completion time kept if it had one), or else a
   * completed record stamped `now` is inserted under the next id.
   */
  function Complete(progress: seq<ProgressRow>, userId: nat, ref: SubtopicRef, now: Timestamp)
    : (CompletionResponse, seq<ProgressRow>)
  {
    match FindProgress(progress, userId, ref.subtopic.id)
    case Some(k) =>
      var row := progress[k].(completed := true, completedAt := Stamped(true, progress[k].completedAt, now));
      (CompletionResponse(ref.subtopic.id, true, row.completedAt), progress[k := row])
    case None =>
      var row := ProgressRow(|progress| + 1, userId, ref, true, Some(now));
      (CompletionResponse(ref.subtopic.id, true, row.completedAt), progress + [row])
  }

  /**
   * markSubtopicComplete on values: the response or failure, and the
   * progress table afterwards. The subtopic lookup comes first, then the
   * enrollment check, then the find-or-create step.
   */
  function MarkComplete(courses: seq<Course>, enrollments: seq<Enrollment>, progress: seq<ProgressRow>,
                        userId: nat, subtopicId: string, now: Timestamp)
    : (Result<CompletionResponse>, seq<ProgressRow>)
  {
    match FindSubtopic(courses, subtopicId)
    case None => (Err(SubtopicNotFound(subtopicId)), progress)
    case Some(ref) =>
      if !IsEnrolled(enrollments, userId, ref.courseId) then (Err(NotEnrolled), progress)
      else
        var (response, after) := Complete(progress, userId, ref, now);
        (Ok(response), after)
  }

  /** An id no catalog subtopic has fails with NotFound and writes nothing. */
  lemma MarkUnknownSubtopic(courses: seq<Course>, enrollments: seq<Enrollment>, progress: seq<ProgressRow>,
                            userId: nat, subtopicId: string, now: Timestamp)
    requires forall c, s :: c in courses && s in AllSubtopics(c) ==> s.id != subtopicId
    ensures MarkComplete(courses, enrollments, progress, userId, subtopicId, now)
            == (Err(SubtopicNotFound(subtopicId)), progress)
  {
  }

  /**
   * A user enrolled in no course that holds a subtopic with that id fails
   * with Forbidden and writes nothing.
   */
  lemma MarkNotEnrolled(courses: seq<Course>, enrollments: seq<Enrollment>, progress: seq<ProgressRow>,
                        userId: nat, subtopicId: string, now: Timestamp)
    requires exists c, s :: c in courses && s in AllSubtopics(c) && s.id == subtopicId
    requires forall c, s :: c in courses && s in AllSubtopics(c) && s.id == subtopicId ==>
               !IsEnrolled(enrollments, userId, c.id)
    ensures MarkComplete(courses, enrollments, progress, userId, subtopicId, now) == (Err(NotEnrolled), progress)
  {
  }

  /** Marking succeeds exactly when the subtopic exists and the user is enrolled in its course. */
  lemma MarkCompleteSucceedsIff(courses: seq<Course>, enrollments: seq<Enrollment>, progress: seq<ProgressRow>,
                                userId: nat, subtopicId: string, now: Timestamp)
    ensures MarkComplete(courses, enrollments, progress, userId, subtopicId, now).0.Ok?
            <==> FindSubtopic(courses, subtopicId).Some?
                 && IsEnrolled(enrollments, userId, FindSubtopic(courses, subtopicId).value.courseId)
  {
  }

  /**
   * After a successful call the table holds a completed, stamped row for
   * (user, subtopic), and the response reports it; a first completion is
   * stamped `now`; every row with another key is unchanged, and at most one
   * row was added, only when none existed.
   */
  lemma MarkCompleteSuccess(courses: seq<Course>, enrollments: seq<Enrollment>, progress: seq<ProgressRow>,
                            userId: nat, subtopicId: string, now: Timestamp)
    requires MarkComplete(courses, enrollments, progress, userId, subtopicId, now).0.Ok?
    ensures var (r, after) := MarkComplete(courses, enrollments, progress, userId, subtopicId, now);
      && (|after| == |progress| || (|after| == |progress| + 1 && FindProgress(progress, userId, subtopicId).None?))
      && (forall i :: 0 <= i < |progress| && !HasKey(progress[i], userId, subtopicId) ==> after[i] == progress[i])
      && (FindProgress(progress, userId, subtopicId).None?
          || progress[FindProgress(progress, userId, subtopicId).value].completedAt.None?
          ==> r.value.completedAt == Some(now))
      && exists k :: 0 <= k < |after| && HasKey(after[k], userId, subtopicId) && after[k].completed
                     && after[k].completedAt.Some? && r.value == CompletionResponse(subtopicId, true, after[k].completedAt)
  {
    var (r, after) := MarkComplete(courses, enrollments, progress, userId, subtopicId, now);
    match FindProgress(progress, userId, subtopicId)
    case Some(k) =>
      assert HasKey(after[k], userId, subtopicId);
    case None =>
      assert HasKey(after[|progress|], userId, subtopicId);
  }

  /**
   * Completing a record that already has a completion time keeps that
   * time, in the table and in the response; only the flag is set.
   */
  lemma MarkCompleteKeepsCompletedAt(courses: seq<Course>, enrollments: seq<Enrollment>, progress: seq<ProgressRow>,
                                     userId: nat, subtopicId: string, now: Timestamp, k: nat)
    requires MarkComplete(courses, enrollments, progress, userId, subtopicId, now).0.Ok?
    requires FindProgress(progress, userId, subtopicId) == Some(k) && progress[k].completedAt.Some?
    ensures MarkComplete(courses, enrollments, progress, userId, subtopicId, now)
            == (Ok(CompletionResponse(subtopicId, true, progress[k].completedAt)),
                progress[k := progress[k].(completed := true)])
  {
  }

  /** Marking keeps the progress table valid: next ids, catalog subtopics, stamped completions, one row per key. */
  lemma MarkCompletePreservesValid(courses: seq<Course>, enrollments: seq<Enrollment>, progress: seq<ProgressRow>,
                                   userId: nat, subtopicId: string, now: Timestamp)
    requires ProgressValid(courses, progress)
    ensures ProgressValid(courses, MarkComplete(courses, enrollments, progress, userId, subtopicId, now).1)
  {
    var after := MarkComplete(courses, enrollments, progress, userId, subtopicId, now).1;
    if after != progress {
      var ref := FindSubtopic(courses, subtopicId).value;
      match FindProgress(progress, userId, subtopicId)
      case Some(k) =>
        forall i, j | 0 <= i < j < |after|
          ensures !HasKey(after[j], after[i].userId, after[i].subtopic.subtopic.id)
        {
          assert after[i].userId == progress[i].userId && after[i].subtopic == progress[i].subtopic;
          assert after[j].userId == progress[j].userId && after[j].subtopic == progress[j].subtopic;
        }
      case None =>
        var row := after[|progress|];
        assert InCatalog(courses, row.subtopic);
        forall i, j | 0 <= i < j < |after|
          ensures !HasKey(after[j], after[i].userId, after[i].subtopic.subtopic.id)
        {
          if j == |progress| {
            assert !HasKey(progress[i], userId, subtopicId);
          } else {
            assert after[i] == progress[i] && after[j] == progress[j];
          }
        }
    }
  }

  /**
   * Marking is idempotent: repeating a successful call, at any later time,
   * returns the same response and leaves the table as the first call left it.
   */
  lemma MarkCompleteIdempotent(courses: seq<Course>, enrollments: seq<Enrollment>, progress: seq<ProgressRow>,
                               userId: nat, subtopicId: string, now: Timestamp, later: Timestamp)
    requires MarkComplete(courses, enrollments, progress, userId, subtopicId, now).0.Ok?
    ensures var (r, after) := MarkComplete(courses, enrollments, progress, userId, subtopicId, now);
            MarkComplete(courses, enrollments, after, userId, subtopicId, later) == (r, after)
  {
    var (r, after) := MarkComplete(courses, enrollments, progress, userId, subtopicId, now);
    match FindProgress(progress, userId, subtopicId)
    case Some(k) =>
      assert forall i :: 0 <= i < k ==> after[i] == progress[i];
      FindProgressFirst(after, userId, subtopicId, k);
      assert after[k := after[k]] == after;
    case None =>
      assert forall i :: 0 <= i < |progress| ==> after[i] == progress[i];
      FindProgressFirst(after, userId, subtopicId, |progress|);
      assert after[|progress| := after[|progress|]] == after;
  }

  /**
   * The find-or-create step of markSubtopicComplete: loads the user's record
   * for the subtopic or creates one, completes it (stamping it if it has no
   * completion time) and saves it through the repository.
   */
  method CompleteRecord(store: Store, userId: nat, ref: SubtopicRef, now: Timestamp) returns (response: CompletionResponse)
    requires forall i :: 0 <= i < |store.progress| ==> store.progress[i].id == i + 1
    modifies store
    ensures (response, store.progress) == Complete(old(store.progress), userId, ref, now)
    ensures store.enrollments == old(store.enrollments)
  {
    var existing := FindProgress(store.progress, userId, ref.subtopic.id);
    var p: SubtopicProgress;
    if existing.Some? {
      p := new SubtopicProgress.Load(store.progress[existing.value]);
    } else {
      p := new SubtopicProgress();
    }
    if p.id.None? {
      p.user := Some(userId);
      p.subtopic := Some(ref);
    }
    p.completed := true;
    if p.completedAt.None? {
      p.completedAt := Some(now);
    }
    var saved := store.SaveProgress(p, now);
    response := CompletionResponse(ref.subtopic.id, saved.completed, saved.completedAt);
  }

  /**
   * markSubtopicComplete: looks the subtopic up, checks the enrollment, and
   * completes the user's record for it, keeping the database valid.
   */
  method MarkSubtopicComplete(store: Store, userId: nat, subtopicId: string, now: Timestamp)
    returns (r: Result<CompletionResponse>)
    requires store.Valid()
    modifies store
    ensures store.Valid()
    ensures (r, store.progress) == MarkComplete(store.courses, store.enrollments, old(store.progress), userId, subtopicId, now)
    ensures store.enrollments == old(store.enrollments)
  {
    MarkCompletePreservesValid(store.courses, store.enrollments, store.progress, userId, subtopicId, now);
    var found := FindSubtopic(store.courses, subtopicId);
    if found.None? {
      return Err(SubtopicNotFound(subtopicId));
    }
    var ref := found.value;
    if !IsEnrolled(store.enrollments, userId, ref.courseId) {
      return Err(NotEnrolled);
    }
    var response := CompleteRecord(store, userId, ref, now);
    r := Ok(response);
  }
}
