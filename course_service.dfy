/**
 * CourseService: the course listing and detail views and the content
 * search with its snippets.
 *
 * The search is a pure function of the query and of the courses that the
 * repository's pre-filter returns; that pre-filter (a database query that is
 * not part of this model) is a parameter `repository`, called with the
 * trimmed query exactly as the service calls it.
 */
module CourseService {
  import opened Common
  import opened JavaString
  import opened Content

  // ----- getAllCourses -----

  datatype CourseSummary = CourseSummary(
    id: string, title: string, description: string, topicCount: nat, subtopicCount: nat)

  /** One summary per stored course, in store order, with the derived counts. */
  function GetAllCourses(courses: seq<Course>): (r: seq<CourseSummary>)
    ensures |r| == |courses|
    ensures forall i :: 0 <= i < |courses| ==>
      && r[i].id == courses[i].id && r[i].title == courses[i].title
      && r[i].description == courses[i].description
      && r[i].topicCount == |courses[i].topics|
      && r[i].subtopicCount == |AllSubtopics(courses[i])|
  {
    var r := seq(|courses|, i requires 0 <= i < |courses| =>
      var c := courses[i];
      CourseSummary(c.id, c.title, c.description, TopicCount(c), SubtopicCount(c)));
    assert forall i :: 0 <= i < |courses| ==> r[i].subtopicCount == |AllSubtopics(courses[i])| by {
      forall i | 0 <= i < |courses| ensures r[i].subtopicCount == |AllSubtopics(courses[i])| {
        SubtopicCountIsNumberOfSubtopics(courses[i]);
      }
    }
    r
  }

  // ----- getCourseById -----

  datatype SubtopicDetail = SubtopicDetail(id: string, title: string, content: Option<string>)

  datatype TopicDetail = TopicDetail(id: string, title: string, subtopics: seq<SubtopicDetail>)

  datatype CourseDetail = CourseDetail(id: string, title: string, description: string, topics: seq<TopicDetail>)

  function SubtopicToDetail(s: Subtopic): SubtopicDetail {
    SubtopicDetail(s.id, s.title, s.content)
  }

  function TopicToDetail(t: Topic): TopicDetail {
    TopicDetail(t.id, t.title,
      seq(|t.subtopics|, i requires 0 <= i < |t.subtopics| => SubtopicToDetail(t.subtopics[i])))
  }

  function CourseToDetail(c: Course): CourseDetail {
    CourseDetail(c.id, c.title, c.description,
      seq(|c.topics|, i requires 0 <= i < |c.topics| => TopicToDetail(c.topics[i])))
  }

  /** Reads a course back out of its detail view. */
  function DetailToCourse(d: CourseDetail): Course {
    Course(d.id, d.title, d.description,
      seq(|d.topics|, i requires 0 <= i < |d.topics| =>
        var t := d.topics[i];
        Topic(t.id, t.title,
          seq(|t.subtopics|, j requires 0 <= j < |t.subtopics| =>
            var s := t.subtopics[j];
            Subtopic(s.id, s.title, s.content)))))
  }

  /** The detail view loses nothing: ids, titles, contents and the order of topics and subtopics survive. */
  lemma DetailRoundTrip(c: Course)
    ensures DetailToCourse(CourseToDetail(c)) == c
  {
    var back := DetailToCourse(CourseToDetail(c));
    assert |back.topics| == |c.topics|;
    forall i | 0 <= i < |c.topics| ensures back.topics[i] == c.topics[i] {
      assert back.topics[i].subtopics == c.topics[i].subtopics;
    }
  }

  /** The error getCourseById throws for an unknown id. */
  function CourseNotFound(courseId: string): Failure {
    NotFound("Course with id '" + courseId + "' does not exist")
  }

  /** The detail view of the course with the given id, or NotFound. */
  function GetCourseById(courses: seq<Course>, courseId: string): (r: Result<CourseDetail>)
    ensures r.Err? <==> forall c :: c in courses ==> c.id != courseId
    ensures r.Err? ==> r.failure == CourseNotFound(courseId)
    ensures r.Ok? ==> r.value.id == courseId &&
                      exists c :: c in courses && c.id == courseId && DetailToCourse(r.value) == c
  {
    match FindCourse(courses, courseId)
    case None => Err(CourseNotFound(courseId))
    case Some(c) =>
      DetailRoundTrip(c);
      Ok(CourseToDetail(c))
  }

  // ----- truncateText / extractSnippet -----

  /** The `maxLength` argument the search passes to truncateText. */
  const SnippetMaxLength: nat := 150
  /** Characters of context kept before a content match. */
  const ContextBefore: nat := 50
  /** Characters of context kept after the start of a content match, beyond the query's length. */
  const ContextAfter: nat := 100
  const Ellipsis: string := "..."

  /** truncateText: "" for null, the text itself when short enough, else its first `maxLength` characters and "...". */
  function TruncateText(text: Option<string>, maxLength: nat): (r: string)
    ensures text.None? ==> r == ""
    ensures text.Some? && |text.value| <= maxLength ==> r == text.value
    ensures text.Some? && |text.value| > maxLength ==>
      |r| == maxLength + 3 && r[..maxLength] == text.value[..maxLength] && r[maxLength..] == Ellipsis
    ensures |r| <= maxLength + 3
  {
    match text
    case None => ""
    case Some(t) => if |t| <= maxLength then t else t[..maxLength] + Ellipsis
  }

  /** A `[start, end)` slice of the content. */
  datatype Window = Window(start: nat, end: nat)

  /**
   * The clamped window around a match at `index` of length `queryLength`:
   * it holds the whole match, 50 characters before it unless the content
   * starts sooner, and 100 after the match start beyond the query's length
   * unless the content ends sooner.
   */
  function SnippetWindow(contentLength: nat, index: nat, queryLength: nat): (w: Window)
    requires index + queryLength <= contentLength
    ensures w.start <= index && index + queryLength <= w.end <= contentLength
    ensures w.start == 0 || index - w.start == ContextBefore
    ensures w.end == contentLength || w.end - index == queryLength + ContextAfter
    ensures index - w.start <= ContextBefore && w.end - index <= queryLength + ContextAfter
  {
    var before := index - ContextBefore;
    var after := index + queryLength + ContextAfter;
    Window(if before > 0 then before else 0, if after < contentLength then after else contentLength)
  }

  /** The window's text with "..." on each side where the window stops short of the content's edge. */
  function Elided(content: string, w: Window): string
    requires w.start <= w.end <= |content|
  {
    (if w.start > 0 then Ellipsis else "") + content[w.start..w.end] + (if w.end < |content| then Ellipsis else "")
  }

  /**
   * extractSnippet: a centred excerpt around the first case-insensitive
   * occurrence of the query, or the truncated content when there is none.
   */
  function ExtractSnippet(content: string, query: string): (r: string)
    ensures !Occurs(Lower(content), Lower(query)) ==> r == TruncateText(Some(content), SnippetMaxLength)
    ensures |r| <= |query| + ContextBefore + ContextAfter + 6
  {
    var index := IndexOf(Lower(content), Lower(query));
    if index == -1 then TruncateText(Some(content), SnippetMaxLength)
    else
      var w := SnippetWindow(|content|, index, |query|);
      Trim(Elided(content, w))
  }

  /**
   * The trimmed elided text starts with "..." whenever the window starts
   * after the content start, and ends with "..." whenever it stops short of
   * the content end; in each of the four cases it is the trimmed window with
   * exactly those ellipses.
   */
  lemma TrimmedElidedEllipses(content: string, w: Window)
    requires w.start <= w.end <= |content|
    ensures var r := Trim(Elided(content, w));
            && (w.start > 0 ==> |r| >= 3 && r[..3] == Ellipsis)
            && (w.end < |content| ==> |r| >= 3 && r[|r| - 3..] == Ellipsis)
            && (w.start > 0 && w.end < |content| ==> r == Ellipsis + content[w.start..w.end] + Ellipsis)
            && (w.start > 0 && w.end == |content| ==> r == Trim(Ellipsis + content[w.start..]))
            && (w.start == 0 && w.end < |content| ==> r == Trim(content[..w.end] + Ellipsis))
            && (w.start == 0 && w.end == |content| ==> r == Trim(content))
  {
    var d := Elided(content, w);
    if w.start > 0 {
      assert d[..3] == Ellipsis;
      TrimKeepsPrefix(d, Ellipsis);
    }
    if w.end < |content| {
      assert d[|d| - 3..] == Ellipsis;
      TrimKeepsSuffix(d, Ellipsis);
    }
    if w.start > 0 && w.end < |content| {
      TrimSpec(d);
    }
    if w.start == 0 {
      assert content[w.start..w.end] == content[..w.end];
      assert d == content[..w.end] + (if w.end < |content| then Ellipsis else "");
    }
    if w.end == |content| {
      assert content[w.start..w.end] == content[w.start..];
      assert d == (if w.start > 0 then Ellipsis else "") + content[w.start..];
    }
    if w.start == 0 && w.end == |content| {
      assert d == content[0..|content|] == content;
    }
  }

  /**
   * Where the query occurs, the snippet is the trimmed window with "..." on
   * each side where the window was clamped short of the content (and on no
   * other side, though content that itself begins or ends with "..." shows
   * it there too).
   */
  lemma SnippetEllipses(content: string, query: string)
    requires Occurs(Lower(content), Lower(query))
    ensures var index := IndexOf(Lower(content), Lower(query));
            var w := SnippetWindow(|content|, index, |query|);
            var r := ExtractSnippet(content, query);
            && (w.start > 0 ==> |r| >= 3 && r[..3] == Ellipsis)
            && (w.end < |content| ==> |r| >= 3 && r[|r| - 3..] == Ellipsis)
            && (w.start > 0 && w.end < |content| ==> r == Ellipsis + content[w.start..w.end] + Ellipsis)
            && (w.start > 0 && w.end == |content| ==> r == Trim(Ellipsis + content[w.start..]))
            && (w.start == 0 && w.end < |content| ==> r == Trim(content[..w.end] + Ellipsis))
            && (w.start == 0 && w.end == |content| ==> r == Trim(content))
  {
    var index := IndexOf(Lower(content), Lower(query));
    TrimmedElidedEllipses(content, SnippetWindow(|content|, index, |query|));
  }

  /** Where content position `k` of the window lands in the elided text. */
  function ElidedPosition(w: Window, k: nat): nat
    requires w.start <= k
  {
    (if w.start > 0 then |Ellipsis| else 0) + k - w.start
  }

  /** The elided text shows the window's characters right after its leading "..." (if any). */
  lemma ElidedShowsWindow(content: string, w: Window, k: nat, n: nat)
    requires w.start <= k && k + n <= w.end <= |content|
    ensures ElidedPosition(w, k) + n <= |Elided(content, w)|
    ensures Elided(content, w)[ElidedPosition(w, k)..ElidedPosition(w, k) + n] == content[k..k + n]
    ensures n > 0 ==> Elided(content, w)[ElidedPosition(w, k)] == content[k]
    ensures n > 0 ==> Elided(content, w)[ElidedPosition(w, k) + n - 1] == content[k + n - 1]
  {
    var pre := if w.start > 0 then Ellipsis else "";
    var mid := content[w.start..w.end];
    var post := if w.end < |content| then Ellipsis else "";
    var d := Elided(content, w);
    var p := ElidedPosition(w, k);
    assert d == pre + mid + post && p == |pre| + k - w.start;
    forall x | p <= x < p + n ensures d[x] == content[x - p + k] {
      ConcatMiddle(pre, mid, post, x);
    }
  }

  /** A case-insensitive occurrence carries over to any copy of the matched characters. */
  lemma OccurrenceCarriesOver(s: string, k: nat, t: string, i: nat, pat: string)
    requires k + |pat| <= |s| && i + |pat| <= |t| && s[k..k + |pat|] == t[i..i + |pat|]
    requires OccursAt(Lower(t), Lower(pat), i)
    ensures OccursAt(Lower(s), Lower(pat), k) && Occurs(Lower(s), Lower(pat))
  {
    forall j | 0 <= j < |pat| ensures Lower(s)[k + j] == Lower(pat)[j] {
      assert s[k + j] == s[k..k + |pat|][j] == t[i..i + |pat|][j] == t[i + j];
      assert Lower(t)[i + j] == Lower(t)[i..i + |pat|][j];
    }
    assert OccursAt(Lower(s), Lower(pat), k);
  }

  /** The characters matching the ends of a trimmed query are not trimmable either. */
  lemma OccurrenceEndsUntrimmable(s: string, k: nat, pat: string)
    requires |pat| > 0 && IsTrimmed(pat) && OccursAt(Lower(s), Lower(pat), k)
    ensures !IsTrimmable(s[k]) && !IsTrimmable(s[k + |pat| - 1])
  {
    var n := |pat|;
    assert Lower(s)[k] == Lower(s)[k..k + n][0] == Lower(pat)[0];
    assert Lower(s)[k + n - 1] == Lower(s)[k..k + n][n - 1] == Lower(pat)[n - 1];
  }

  /** An occurrence survives being copied twice, from `t` into `d` and from `d` into `r`. */
  lemma CopyKeepsOccurrence(r: string, ra: nat, rb: nat, d: string, da: nat, db: nat, t: string, i: nat, pat: string)
    requires ra <= rb <= |r| && da <= db <= |d| && i + |pat| <= |t|
    requires r[ra..rb] == d[da..db] && d[da..db] == t[i..i + |pat|]
    requires OccursAt(Lower(t), Lower(pat), i)
    ensures Occurs(Lower(r), Lower(pat))
  {
    OccurrenceCarriesOver(r, ra, t, i, pat);
  }

  /**
   * Trimming keeps a copy, at `p`, of a case-insensitive occurrence of a
   * query whose end characters are not trimmable.
   */
  lemma TrimKeepsCopiedOccurrence(d: string, p: nat, content: string, index: nat, query: string)
    requires p + |query| <= |d| && index + |query| <= |content| && d[p..p + |query|] == content[index..index + |query|]
    requires |query| > 0 && !IsTrimmable(d[p]) && !IsTrimmable(d[p + |query| - 1])
    requires OccursAt(Lower(content), Lower(query), index)
    ensures Occurs(Lower(Trim(d)), Lower(query))
  {
    var n := |query|;
    TrimKeepsSpan(d, p, p + n);
    var a := TrimOffset(d);
    CopyKeepsOccurrence(Trim(d), p - a, p + n - a, d, p, p + n, content, index, query);
  }

  /** A trimmed query occurring inside the window still occurs in the trimmed elided text. */
  lemma TrimmedElidedShowsOccurrence(content: string, w: Window, index: nat, query: string)
    requires w.start <= index && index + |query| <= w.end <= |content|
    requires |query| > 0 && IsTrimmed(query) && OccursAt(Lower(content), Lower(query), index)
    ensures Occurs(Lower(Trim(Elided(content, w))), Lower(query))
  {
    OccurrenceEndsUntrimmable(content, index, query);
    ElidedShowsWindow(content, w, index, |query|);
    TrimKeepsCopiedOccurrence(Elided(content, w), ElidedPosition(w, index), content, index, query);
  }

  /**
   * When the query neither starts nor ends with a trimmable character, the
   * snippet of a content match shows the match: its lower-cased form
   * contains the lower-cased query.
   */
  lemma SnippetShowsMatch(content: string, query: string)
    requires Occurs(Lower(content), Lower(query))
    requires |query| > 0 && IsTrimmed(query)
    ensures Occurs(Lower(ExtractSnippet(content, query)), Lower(query))
  {
    var index := IndexOf(Lower(content), Lower(query));
    TrimmedElidedShowsOccurrence(content, SnippetWindow(|content|, index, |query|), index, query);
  }

  // ----- searchCourses / buildSearchResult -----

  datatype MatchKind = SubtopicTitle | SubtopicContent {
    /** The `type` string of a match. */
    function Name(): string {
      match this
      case SubtopicTitle => "subtopic"
      case SubtopicContent => "content"
    }
  }

  datatype Match = Match(kind: MatchKind, topicTitle: string, subtopicId: string, subtopicTitle: string, snippet: string)

  datatype SearchResult = SearchResult(courseId: string, courseTitle: string, matches: seq<Match>)

  datatype SearchResponse = SearchResponse(query: Option<string>, results: seq<SearchResult>)

  /**
   * What one subtopic contributes to a course's matches: a title match wins
   * and content is then not looked at; otherwise non-null content that
   * contains the query gives a content match; otherwise nothing.
   */
  function SubtopicMatch(topic: Topic, s: Subtopic, query: string): Option<Match> {
    var lowerQuery := Lower(query);
    if Contains(Lower(s.title), lowerQuery) then
      Some(Match(SubtopicTitle, topic.title, s.id, s.title, TruncateText(s.content, SnippetMaxLength)))
    else if s.content.Some? && Contains(Lower(s.content.value), lowerQuery) then
      Some(Match(SubtopicContent, topic.title, s.id, s.title, ExtractSnippet(s.content.value, query)))
    else
      None
  }

  /**
   * The kind of a subtopic's match is decided by case-insensitive
   * containment: a title match whenever the title contains the query, a
   * content match only when the title does not and the non-null content
   * does, and no match otherwise; the match names the subtopic and its topic.
   */
  lemma SubtopicMatchKinds(topic: Topic, s: Subtopic, query: string)
    ensures var r := SubtopicMatch(topic, s, query);
      && (r.Some? ==> r.value.topicTitle == topic.title && r.value.subtopicId == s.id && r.value.subtopicTitle == s.title)
      && ((r.Some? && r.value.kind == SubtopicTitle) <==> Occurs(Lower(s.title), Lower(query)))
      && ((r.Some? && r.value.kind == SubtopicContent) <==>
            !Occurs(Lower(s.title), Lower(query)) && s.content.Some? && Occurs(Lower(s.content.value), Lower(query)))
      && (r.Some? && r.value.kind == SubtopicTitle ==> r.value.snippet == TruncateText(s.content, SnippetMaxLength))
      && (r.Some? && r.value.kind == SubtopicContent ==> r.value.snippet == ExtractSnippet(s.content.value, query))
      && (r.Some? ==> r.value.kind.Name() == (if Occurs(Lower(s.title), Lower(query)) then "subtopic" else "content"))
  {
  }

  /**
   * A subtopic whose title and content both contain the query gives a
   * single title match whose snippet is the truncated content.
   */
  lemma TitleMatchWins(topic: Topic, s: Subtopic, query: string)
    requires Occurs(Lower(s.title), Lower(query))
    ensures SubtopicMatch(topic, s, query) ==
      Some(Match(SubtopicTitle, topic.title, s.id, s.title, TruncateText(s.content, SnippetMaxLength)))
  {
  }

  function MatchSubtopicId(m: Match): string { m.subtopicId }

  function SubtopicId(s: Subtopic): string { s.id }

  function CourseId(c: Course): string { c.id }

  function ResultCourseId(r: SearchResult): string { r.courseId }

  /** The matches of one topic's subtopics, each subtopic's match in subtopic order. */
  function SubtopicsMatches(topic: Topic, subs: seq<Subtopic>, query: string): seq<Match> {
    FilterMap((s: Subtopic) => SubtopicMatch(topic, s, query), subs)
  }

  /** The matches of a list of topics: each topic's matches in turn, in topic order. */
  function TopicsMatches(ts: seq<Topic>, query: string): seq<Match> {
    if |ts| == 0 then []
    else TopicsMatches(ts[..|ts| - 1], query) + SubtopicsMatches(ts[|ts| - 1], ts[|ts| - 1].subtopics, query)
  }

  /**
   * A topic's matches are exactly its subtopics' matches: at most one per
   * subtopic, in subtopic order, each the subtopic's own, none missing.
   */
  lemma SubtopicsMatchesExact(topic: Topic, subs: seq<Subtopic>, query: string)
    ensures var r := SubtopicsMatches(topic, subs, query);
      && IsSubsequence(Keys(MatchSubtopicId, r), Keys(SubtopicId, subs))
      && (forall m :: m in r ==> exists s :: s in subs && SubtopicMatch(topic, s, query) == Some(m))
      && (forall s :: s in subs && SubtopicMatch(topic, s, query).Some? ==> SubtopicMatch(topic, s, query).value in r)
  {
    var f := (s: Subtopic) => SubtopicMatch(topic, s, query);
    forall s | s in subs && f(s).Some? ensures MatchSubtopicId(f(s).value) == SubtopicId(s) {
      SubtopicMatchKinds(topic, s, query);
    }
    FilterMapExact(f, subs, SubtopicId, MatchSubtopicId);
  }

  /** A course's matches follow topic-then-subtopic order with at most one match per subtopic. */
  lemma {:induction false} TopicsMatchesOrder(ts: seq<Topic>, query: string)
    ensures IsSubsequence(Keys(MatchSubtopicId, TopicsMatches(ts, query)), Keys(SubtopicId, Flatten(ts)))
  {
    if |ts| == 0 {
      SubsequenceEmpty(Keys(SubtopicId, Flatten(ts)));
    } else {
      var init, last := ts[..|ts| - 1], ts[|ts| - 1];
      TopicsMatchesOrder(init, query);
      SubtopicsMatchesExact(last, last.subtopics, query);
      var prev := TopicsMatches(init, query);
      var here := SubtopicsMatches(last, last.subtopics, query);
      assert TopicsMatches(ts, query) == prev + here;
      assert Flatten(ts) == Flatten(init) + last.subtopics;
      KeysAppend(MatchSubtopicId, prev, here);
      KeysAppend(SubtopicId, Flatten(init), last.subtopics);
      SubsequenceConcat(Keys(MatchSubtopicId, prev), Keys(SubtopicId, Flatten(init)),
                        Keys(MatchSubtopicId, here), Keys(SubtopicId, last.subtopics));
    }
  }

  /** Each of a course's matches is the match of one of its subtopics, and none is missing. */
  lemma {:induction false} TopicsMatchesMembers(ts: seq<Topic>, query: string)
    ensures forall m :: m in TopicsMatches(ts, query) ==>
              exists t, s :: t in ts && s in t.subtopics && SubtopicMatch(t, s, query) == Some(m)
    ensures forall t, s :: t in ts && s in t.subtopics && SubtopicMatch(t, s, query).Some? ==>
              SubtopicMatch(t, s, query).value in TopicsMatches(ts, query)
  {
    if |ts| != 0 {
      var init, last := ts[..|ts| - 1], ts[|ts| - 1];
      TopicsMatchesMembers(init, query);
      SubtopicsMatchesExact(last, last.subtopics, query);
      assert ts == init + [last];
    }
  }

  /**
   * A course's matches follow topic-then-subtopic order with at most one
   * match per subtopic, each one the match of a subtopic of the course, and
   * every subtopic that matches is represented.
   */
  lemma TopicsMatchesExact(ts: seq<Topic>, query: string)
    ensures var r := TopicsMatches(ts, query);
      && IsSubsequence(Keys(MatchSubtopicId, r), Keys(SubtopicId, Flatten(ts)))
      && (forall m :: m in r ==> exists t, s :: t in ts && s in t.subtopics && SubtopicMatch(t, s, query) == Some(m))
      && (forall t, s :: t in ts && s in t.subtopics && SubtopicMatch(t, s, query).Some? ==>
            SubtopicMatch(t, s, query).value in r)
  {
    TopicsMatchesOrder(ts, query);
    TopicsMatchesMembers(ts, query);
  }

  function OptionToSeq<T>(o: Option<T>): seq<T> {
    match o
    case None => []
    case Some(x) => [x]
  }

  /** One more subtopic appends that subtopic's match, if any. */
  lemma SubtopicsMatchesStep(topic: Topic, subs: seq<Subtopic>, j: nat, query: string)
    requires j < |subs|
    ensures SubtopicsMatches(topic, subs[..j + 1], query) ==
            SubtopicsMatches(topic, subs[..j], query) + OptionToSeq(SubtopicMatch(topic, subs[j], query))
  {
    assert subs[..j + 1][..j] == subs[..j];
  }

  /** One more topic appends that topic's matches. */
  lemma TopicsMatchesStep(ts: seq<Topic>, i: nat, query: string)
    requires i < |ts|
    ensures TopicsMatches(ts[..i + 1], query) == TopicsMatches(ts[..i], query) + SubtopicsMatches(ts[i], ts[i].subtopics, query)
  {
    assert ts[..i + 1][..i] == ts[..i];
  }

  /** What buildSearchResult returns for a course. */
  function CourseResult(c: Course, query: string): SearchResult {
    SearchResult(c.id, c.title, TopicsMatches(c.topics, query))
  }

  /**
   * The body of buildSearchResult's inner loop for one subtopic: the title
   * is tested first, then the non-null content.
   */
  method MatchSubtopic(topic: Topic, subtopic: Subtopic, query: string, lowerQuery: string) returns (m: Option<Match>)
    requires lowerQuery == Lower(query)
    ensures m.Some? ==> m.value.topicTitle == topic.title && m.value.subtopicId == subtopic.id
                        && m.value.subtopicTitle == subtopic.title
    ensures (m.Some? && m.value.kind == SubtopicTitle) <==> Occurs(Lower(subtopic.title), Lower(query))
    ensures (m.Some? && m.value.kind == SubtopicContent) <==>
              !Occurs(Lower(subtopic.title), Lower(query)) && subtopic.content.Some?
              && Occurs(Lower(subtopic.content.value), Lower(query))
    ensures m.Some? && m.value.kind == SubtopicTitle ==> m.value.snippet == TruncateText(subtopic.content, SnippetMaxLength)
    ensures m.Some? && m.value.kind == SubtopicContent ==> m.value.snippet == ExtractSnippet(subtopic.content.value, query)
  {
    if Contains(Lower(subtopic.title), lowerQuery) {
      m := Some(Match(SubtopicTitle, topic.title, subtopic.id, subtopic.title,
                      TruncateText(subtopic.content, SnippetMaxLength)));
    } else if subtopic.content.Some? && Contains(Lower(subtopic.content.value), lowerQuery) {
      var snippet := ExtractSnippet(subtopic.content.value, query);
      m := Some(Match(SubtopicContent, topic.title, subtopic.id, subtopic.title, snippet));
    } else {
      m := None;
    }
  }

  /**
   * buildSearchResult's inner loop: walks one topic's subtopics in stored
   * order, appending each subtopic's match to the matches so far.
   */
  method AppendTopicMatches(matches: seq<Match>, topic: Topic, query: string, lowerQuery: string)
    returns (r: seq<Match>)
    requires lowerQuery == Lower(query)
    ensures r == matches + SubtopicsMatches(topic, topic.subtopics, query)
  {
    r := matches;
    var j := 0;
    while j < |topic.subtopics|
      invariant 0 <= j <= |topic.subtopics|
      invariant r == matches + SubtopicsMatches(topic, topic.subtopics[..j], query)
    {
      var subtopic := topic.subtopics[j];
      var m := MatchSubtopic(topic, subtopic, query, lowerQuery);
      assert r + OptionToSeq(m) == matches + SubtopicsMatches(topic, topic.subtopics[..j + 1], query) by {
        SubtopicMatchKinds(topic, subtopic, query);
        assert m == SubtopicMatch(topic, subtopic, query);
        SubtopicsMatchesStep(topic, topic.subtopics, j, query);
        AppendAssociative(matches, SubtopicsMatches(topic, topic.subtopics[..j], query), OptionToSeq(m));
      }
      r := r + OptionToSeq(m);
      j := j + 1;
    }
    assert topic.subtopics[..j] == topic.subtopics;
  }

  /**
   * buildSearchResult: walks the topics in stored order and, within each,
   * the subtopics, collecting each subtopic's match.
   */
  method BuildSearchResult(course: Course, query: string) returns (r: SearchResult)
    ensures r == CourseResult(course, query)
  {
    var matches: seq<Match> := [];
    var lowerQuery := Lower(query);
    var i := 0;
    while i < |course.topics|
      invariant 0 <= i <= |course.topics|
      invariant matches == TopicsMatches(course.topics[..i], query)
    {
      matches := AppendTopicMatches(matches, course.topics[i], query, lowerQuery);
      TopicsMatchesStep(course.topics, i, query);
      i := i + 1;
    }
    assert course.topics[..i] == course.topics;
    r := SearchResult(course.id, course.title, matches);
  }

  /** A course contributes at most one match per subtopic, so never more matches than Course.getSubtopicCount. */
  lemma MatchesWithinSubtopicCount(c: Course, query: string)
    ensures |CourseResult(c, query).matches| <= SubtopicCount(c)
  {
    var ms := TopicsMatches(c.topics, query);
    TopicsMatchesExact(c.topics, query);
    SubsequenceShorter(Keys(MatchSubtopicId, ms), Keys(SubtopicId, Flatten(c.topics)));
    SubtopicCountIsNumberOfSubtopics(c);
  }

  /** A course's result when it has at least one match (the stream's filter), else nothing. */
  function MatchedResult(c: Course, query: string): Option<SearchResult> {
    var res := CourseResult(c, query);
    if |res.matches| > 0 then Some(res) else None
  }

  /**
   * The results for the courses the repository returned, keeping only those
   * with at least one match, in the repository's order.
   */
  function CollectResults(courses: seq<Course>, query: string): seq<SearchResult> {
    FilterMap((c: Course) => MatchedResult(c, query), courses)
  }

  /**
   * Every kept result has at least one match and is the result of one of
   * the courses, every course with a match is kept, and the kept courses
   * keep the input order.
   */
  lemma CollectResultsExact(courses: seq<Course>, query: string)
    ensures var r := CollectResults(courses, query);
      && (forall res :: res in r ==> |res.matches| > 0)
      && (forall res :: res in r ==> exists c :: c in courses && res == CourseResult(c, query))
      && (forall c :: c in courses && |CourseResult(c, query).matches| > 0 ==> CourseResult(c, query) in r)
      && IsSubsequence(Keys(ResultCourseId, r), Keys(CourseId, courses))
  {
    var f := (c: Course) => MatchedResult(c, query);
    FilterMapExact(f, courses, CourseId, ResultCourseId);
  }

  /**
   * searchCourses: a null or blank query gives no results; otherwise the
   * repository is asked with the trimmed query and each course it returns is
   * matched with the query as given, untrimmed. The response echoes the query.
   */
  function SearchCourses(query: Option<string>, repository: string -> seq<Course>): (r: SearchResponse)
    ensures r.query == query
    ensures query.None? || IsBlank(query.value) ==> r.results == []
    ensures query.Some? && !IsBlank(query.value) ==>
              r.results == CollectResults(repository(Trim(query.value)), query.value)
  {
    match query
    case None => SearchResponse(query, [])
    case Some(q) =>
      TrimSpec(q);
      if Trim(q) == [] then SearchResponse(query, [])
      else SearchResponse(query, CollectResults(repository(Trim(q)), q))
  }
}
