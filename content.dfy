/**
 * The content tree: Course -> Topic -> Subtopic, its derived counts
 * (Course.getTopicCount, Course.getSubtopicCount, Topic.getSubtopicCount)
 * and the catalog lookups the services make through the repositories
 * (a course by id, a subtopic by id together with its owning course).
 *
 * Back-references (Topic.course, Subtopic.topic) are not stored: a topic's
 * course and a subtopic's topic are the ones that contain it.
 */
module Content {
  import opened Common

  datatype Subtopic = Subtopic(id: string, title: string, content: Option<string>)

  datatype Topic = Topic(id: string, title: string, subtopics: seq<Subtopic>)

  datatype Course = Course(id: string, title: string, description: string, topics: seq<Topic>)

  /** Topic.getSubtopicCount: the size of the subtopic list. */
  function TopicSubtopicCount(t: Topic): nat {
    |t.subtopics|
  }

  /** Course.getTopicCount: the size of the topic list. */
  function TopicCount(c: Course): nat {
    |c.topics|
  }

  /** The stream sum of Topic.getSubtopicCount over a topic list, in list order. */
  function SumSubtopicCounts(ts: seq<Topic>): nat {
    if |ts| == 0 then 0 else SumSubtopicCounts(ts[..|ts| - 1]) + TopicSubtopicCount(ts[|ts| - 1])
  }

  /** Course.getSubtopicCount. */
  function SubtopicCount(c: Course): nat {
    SumSubtopicCounts(c.topics)
  }

  /** All subtopics of a topic list, topic by topic, each topic's in stored order. */
  function Flatten(ts: seq<Topic>): seq<Subtopic> {
    if |ts| == 0 then [] else Flatten(ts[..|ts| - 1]) + ts[|ts| - 1].subtopics
  }

  /** All subtopics of a course in the order the services walk them. */
  function AllSubtopics(c: Course): seq<Subtopic> {
    Flatten(c.topics)
  }

  lemma {:induction false} SumAppend(a: seq<Topic>, b: seq<Topic>)
    ensures SumSubtopicCounts(a + b) == SumSubtopicCounts(a) + SumSubtopicCounts(b)
    decreases |b|
  {
    if |b| == 0 {
      assert a + b == a;
    } else {
      assert (a + b)[..|a + b| - 1] == a + b[..|b| - 1];
      SumAppend(a, b[..|b| - 1]);
    }
  }

  lemma SumSingleton(x: Topic)
    ensures SumSubtopicCounts([x]) == TopicSubtopicCount(x)
  {
    assert [x][..0] == [];
  }

  /** Taking one topic out of the list takes its count out of the sum. */
  lemma SumRemove(p: seq<Topic>, x: Topic, q: seq<Topic>)
    ensures SumSubtopicCounts(p + [x] + q) == SumSubtopicCounts(p + q) + TopicSubtopicCount(x)
  {
    SumAppend(p + [x], q);
    SumAppend(p, [x]);
    SumAppend(p, q);
    SumSingleton(x);
  }

  /** Taking one element out of a sequence takes one occurrence out of its multiset. */
  lemma MultisetRemove<T>(b: seq<T>, k: nat)
    requires k < |b|
    ensures multiset(b[..k] + b[k + 1..]) == multiset(b) - multiset{b[k]}
  {
    assert b == b[..k] + [b[k]] + b[k + 1..];
  }

  /**
   * Two sequences with the same elements: the last element of the first sits
   * at some index k of the second, and the rests match once it is removed.
   */
  lemma MatchLast<T>(a: seq<T>, b: seq<T>) returns (k: nat)
    requires |a| != 0 && multiset(a) == multiset(b)
    ensures k < |b| && b[k] == a[|a| - 1]
    ensures multiset(a[..|a| - 1]) == multiset(b[..k] + b[k + 1..])
  {
    assert a == a[..|a| - 1] + [a[|a| - 1]];
    assert a[|a| - 1] in multiset(b);
    k :| 0 <= k < |b| && b[k] == a[|a| - 1];
    MultisetRemove(a, |a| - 1);
    MultisetRemove(b, k);
    assert a[..|a| - 1] + a[|a| - 1 + 1..] == a[..|a| - 1];
  }

  /** The sum does not depend on the order of the topics. */
  lemma {:induction false} SumSubtopicCountsPermutation(a: seq<Topic>, b: seq<Topic>)
    requires multiset(a) == multiset(b)
    ensures SumSubtopicCounts(a) == SumSubtopicCounts(b)
    decreases |a|
  {
    if |a| != 0 {
      var x := a[|a| - 1];
      var k := MatchLast(a, b);
      var a', b' := a[..|a| - 1], b[..k] + b[k + 1..];
      SumSubtopicCountsPermutation(a', b');
      assert SumSubtopicCounts(a) == SumSubtopicCounts(a') + TopicSubtopicCount(x);
      assert SumSubtopicCounts(b) == SumSubtopicCounts(b') + TopicSubtopicCount(x) by {
        assert b == b[..k] + [x] + b[k + 1..];
        SumRemove(b[..k], x, b[k + 1..]);
      }
    } else {
      assert b == [];
    }
  }

  /** Course.getSubtopicCount is the same for every reordering of the course's topics. */
  lemma SubtopicCountOrderIndependent(c: Course, d: Course)
    requires multiset(c.topics) == multiset(d.topics)
    ensures SubtopicCount(c) == SubtopicCount(d)
  {
    SumSubtopicCountsPermutation(c.topics, d.topics);
  }

  /** The flattened subtopic list has exactly the summed length. */
  lemma {:induction false} FlattenLength(ts: seq<Topic>)
    ensures |Flatten(ts)| == SumSubtopicCounts(ts)
  {
    if |ts| != 0 {
      FlattenLength(ts[..|ts| - 1]);
    }
  }

  /** A subtopic is in the flattened list exactly when some topic of the list holds it. */
  lemma {:induction false} FlattenMembership(ts: seq<Topic>, s: Subtopic)
    ensures s in Flatten(ts) <==> exists t :: t in ts && s in t.subtopics
  {
    if |ts| != 0 {
      FlattenMembership(ts[..|ts| - 1], s);
      var last := ts[|ts| - 1];
      assert ts == ts[..|ts| - 1] + [last];
      if s in last.subtopics {
        assert last in ts;
      }
    }
  }

  /** Course.getSubtopicCount counts exactly the subtopics of the course. */
  lemma SubtopicCountIsNumberOfSubtopics(c: Course)
    ensures SubtopicCount(c) == |AllSubtopics(c)|
  {
    FlattenLength(c.topics);
  }

  /** Each topic's subtopic count is at most the course's. */
  lemma {:induction false} TopicCountWithinCourse(ts: seq<Topic>, t: Topic)
    requires t in ts
    ensures TopicSubtopicCount(t) <= SumSubtopicCounts(ts)
  {
    if ts[|ts| - 1] != t {
      TopicCountWithinCourse(ts[..|ts| - 1], t);
    }
  }

  /**
   * A course whose topic list is empty (the default), or whose topics all
   * have empty subtopic lists, has subtopic count 0; with no topics the
   * topic count is 0 as well.
   */
  lemma EmptyCourseCounts(c: Course)
    requires forall t :: t in c.topics ==> t.subtopics == []
    ensures SubtopicCount(c) == 0
    ensures c.topics == [] ==> TopicCount(c) == 0
  {
    EmptyTopicsSumZero(c.topics);
  }

  /** Topics that all have empty subtopic lists sum to 0. */
  lemma {:induction false} EmptyTopicsSumZero(ts: seq<Topic>)
    requires forall t :: t in ts ==> t.subtopics == []
    ensures SumSubtopicCounts(ts) == 0
  {
    if |ts| != 0 {
      assert ts[|ts| - 1] in ts;
      assert forall t :: t in ts[..|ts| - 1] ==> t in ts;
      EmptyTopicsSumZero(ts[..|ts| - 1]);
    }
  }

  // ----- Catalog lookups (CourseRepository.findById, SubtopicRepository.findById) -----

  /** No two courses of the catalog share an id (the primary key). */
  predicate UniqueCourseIds(courses: seq<Course>) {
    forall i, j :: 0 <= i < j < |courses| ==> courses[i].id != courses[j].id
  }

  /** With unique ids, two catalog courses with the same id are the same course. */
  lemma SameIdSameCourse(courses: seq<Course>, c: Course, d: Course)
    requires UniqueCourseIds(courses) && c in courses && d in courses && c.id == d.id
    ensures c == d
  {
    var i :| 0 <= i < |courses| && courses[i] == c;
    var j :| 0 <= j < |courses| && courses[j] == d;
    assert !(i < j) && !(j < i);
  }

  /** The course with the given id, if there is one. */
  function FindCourse(courses: seq<Course>, id: string): (r: Option<Course>)
    ensures r.Some? ==> r.value in courses && r.value.id == id
    ensures r.None? <==> forall c :: c in courses ==> c.id != id
  {
    if |courses| == 0 then None
    else if courses[0].id == id then Some(courses[0])
    else FindCourse(courses[1..], id)
  }

  /** With unique ids, looking a catalog course up by its id finds that very course. */
  lemma {:induction false} FindCourseFindsMember(courses: seq<Course>, c: Course)
    requires UniqueCourseIds(courses) && c in courses
    ensures FindCourse(courses, c.id) == Some(c)
  {
    if courses[0] != c {
      assert UniqueCourseIds(courses[1..]) by {
        forall i, j | 0 <= i < j < |courses[1..]|
          ensures courses[1..][i].id != courses[1..][j].id
        {
          assert courses[1..][i] == courses[i + 1] && courses[1..][j] == courses[j + 1];
        }
      }
      var k :| 0 <= k < |courses| && courses[k] == c;
      assert courses[0].id != c.id;
      FindCourseFindsMember(courses[1..], c);
    }
  }

  /** A subtopic found by id, with the id of the course that owns it (through its topic). */
  datatype SubtopicRef = SubtopicRef(subtopic: Subtopic, courseId: string)

  /** The first subtopic of the list with the given id. */
  function FindSubtopicIn(subs: seq<Subtopic>, id: string): (r: Option<Subtopic>)
    ensures r.Some? ==> r.value in subs && r.value.id == id
    ensures r.None? <==> forall s :: s in subs ==> s.id != id
  {
    if |subs| == 0 then None
    else if subs[0].id == id then Some(subs[0])
    else FindSubtopicIn(subs[1..], id)
  }

  /**
   * SubtopicRepository.findById followed by subtopic.getTopic().getCourse():
   * the subtopic with that id and the id of the course it belongs to.
   */
  function FindSubtopic(courses: seq<Course>, id: string): (r: Option<SubtopicRef>)
    ensures r.Some? ==> r.value.subtopic.id == id &&
                        exists c :: c in courses && c.id == r.value.courseId && r.value.subtopic in AllSubtopics(c)
    ensures r.None? <==> forall c, s :: c in courses && s in AllSubtopics(c) ==> s.id != id
  {
    if |courses| == 0 then None
    else match FindSubtopicIn(AllSubtopics(courses[0]), id)
      case Some(s) => Some(SubtopicRef(s, courses[0].id))
      case None => FindSubtopic(courses[1..], id)
  }
}
