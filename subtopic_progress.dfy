/**
 * The subtopic_progress entity: one user's completion state for one
 * subtopic, its field defaults and its JPA lifecycle hooks (`@PrePersist`
 * onCreate and `@PreUpdate` onUpdate), which stamp `completedAt` at most once.
 */
module ProgressEntity {
  import opened Common
  import opened Content

  /**
   * A stored subtopic_progress row. The subtopic reference carries the id
   * of the course that owns it (subtopic -> topic -> course), which is what
   * the per-course progress query joins on.
   */
  datatype ProgressRow = ProgressRow(
    id: nat,
    userId: nat,
    subtopic: SubtopicRef,
    completed: bool,
    completedAt: Option<Timestamp>)

  /**
   * The hooks' rule for `completedAt`: a completed record without a
   * timestamp gets `now`; a timestamp already present is never replaced, and
   * an incomplete record keeps whatever it had.
   */
  function Stamped(completed: bool, completedAt: Option<Timestamp>, now: Timestamp): (r: Option<Timestamp>)
    ensures completedAt.Some? ==> r == completedAt
    ensures completed ==> r.Some?
    ensures !completed ==> r == completedAt
    ensures r != completedAt ==> r == Some(now)
  {
    if completed && completedAt.None? then Some(now) else completedAt
  }

  /** Stamping is idempotent: a second hook run, at any time, changes nothing. */
  lemma StampedIdempotent(completed: bool, completedAt: Option<Timestamp>, now: Timestamp, later: Timestamp)
    ensures Stamped(completed, Stamped(completed, completedAt, now), later) == Stamped(completed, completedAt, now)
  {
  }

  /** The entity object, loaded from a row or freshly created, that the service mutates and saves. */
  class SubtopicProgress {
    var id: Option<nat>
    var user: Option<nat>
    var subtopic: Option<SubtopicRef>
    var completed: bool
    var completedAt: Option<Timestamp>

    /** A new record: no id, user or subtopic yet, not completed, no completion time. */
    constructor ()
      ensures id.None? && user.None? && subtopic.None?
      ensures !completed && completedAt.None?
    {
      id := None;
      user := None;
      subtopic := None;
      completed := false;
      completedAt := None;
    }

    /** The record as loaded from a stored row. */
    constructor Load(row: ProgressRow)
      ensures id == Some(row.id) && user == Some(row.userId) && subtopic == Some(row.subtopic)
      ensures completed == row.completed && completedAt == row.completedAt
    {
      id := Some(row.id);
      user := Some(row.userId);
      subtopic := Some(row.subtopic);
      completed := row.completed;
      completedAt := row.completedAt;
    }

    /** `@PrePersist`: stamps a completed record that has no completion time; touches nothing else. */
    method OnCreate(now: Timestamp)
      modifies this
      ensures completedAt == Stamped(old(completed), old(completedAt), now)
      ensures completed ==> completedAt.Some?
      ensures completed == old(completed) && id == old(id) && user == old(user) && subtopic == old(subtopic)
    {
      if completed && completedAt.None? {
        completedAt := Some(now);
      }
    }

    /** `@PreUpdate`: the same rule as OnCreate. */
    method OnUpdate(now: Timestamp)
      modifies this
      ensures completedAt == Stamped(old(completed), old(completedAt), now)
      ensures completed ==> completedAt.Some?
      ensures completed == old(completed) && id == old(id) && user == old(user) && subtopic == old(subtopic)
    {
      if completed && completedAt.None? {
        completedAt := Some(now);
      }
    }
  }
}
