# Course platform services, modelled in Dafny

A model of the service layer of a Spring Boot course platform. Users browse
a catalog of courses, where a course has topics and a topic has subtopics.
They search subtopic titles and contents, enroll in courses, mark subtopics
complete and read their progress through an enrollment. The project covers
these parts of the system:

- **The catalog** (`content.dfy`, module `Content`): the `Course`, `Topic`
  and `Subtopic` entities as values. This file also has the derived
  topic/subtopic counts and the lookups by id.
- **`CourseService`** (`course_service.dfy`): the course list and the course
  detail view. It also has the search, with its case-insensitive title and
  content matching, `truncateText` and the snippet extraction. The
  `String.toLowerCase`, `trim` and `indexOf` these rely on are in
  `java_string.dfy`.
- **The `SubtopicProgress` entity** (`subtopic_progress.dfy`): a class with
  its field defaults and its `@PrePersist` / `@PreUpdate` hooks. The hooks
  stamp `completedAt` at most once.
- **The database** (`store.dfy`, module `Database`): a `Store` class holding
  the catalog and the enrollments and subtopic_progress tables, with their
  constraints. Those are IDENTITY ids, one enrollment per (user, course) and
  one progress row per (user, subtopic). The class also has the repository
  queries the services issue and the two `save` operations.
- **`EnrollmentService`** (`enrollment_service.dfy`): `enrollInCourse` and
  `getEnrollmentProgress`, including the percentage rounded half-up to two
  decimals.
- **`ProgressService`** (`progress_service.dfy`): `markSubtopicComplete`.

The service operations that write to the database (`enrollInCourse`,
`markSubtopicComplete`) are imperative Dafny `method`s over the `Store`. Each
one's `ensures` says that the response and the new tables are those of a pure
function of the old tables. `buildSearchResult`, whose nested loops collect
the matches, is a `method` proved equal to a pure function too. The read-only
operations (`getAllCourses`, `getCourseById`, `searchCourses`,
`getEnrollmentProgress`) are pure functions of the catalog and the tables
they read. The lemmas state the promised properties about those functions:
- error precedence;
- "writes nothing on failure";
- idempotence;
- preservation of the table constraints;
- bounds on the counts and the percentage;
- that a snippet shows the match.

The current user, the clock (`LocalDateTime.now()`) and the course
repository's search pre-filter are parameters.

A Java reference that the code tests against `null`, and a repository's
`Optional`, is an `Option`. The exceptions `NotFoundException`,
`ConflictException` and `ForbiddenException` are the `Failure` values of a
`Result`, with the same error and message strings. `getEnrollmentProgress`
computes a `double` percentage rounded to two decimals. The model gives it as
a natural number of hundredths of a percent, so 25.00 is `2500`.

`CourseService.extractSnippet` appends "..." only when its window, which ends
at `min(length, index + |query| + 100)`, stops short of the content's end. So
the snippet of a content whose end lies within 100 characters after the
match gets no "..." appended at its end; it ends in "..." only when the
content does once its trailing whitespace is trimmed.

## Model

| member | source | states |
|---|---|---|
| Content.SubtopicCountIsNumberOfSubtopics | src/main/java/com/learning/courseplatform/entity/Course.java:37-41 | getSubtopicCount, the sum of the topics' subtopic counts, is the number of the course's subtopics |
| Content.SubtopicCountOrderIndependent | src/main/java/com/learning/courseplatform/entity/Course.java:37-41 | the subtopic count does not depend on the order of the topics |
| Content.TopicCountWithinCourse | src/main/java/com/learning/courseplatform/entity/Topic.java:33-35 | no topic has more subtopics than its course's total |
| Content.EmptyCourseCounts | src/main/java/com/learning/courseplatform/entity/Course.java:33-41 | a course whose topics all have empty subtopic lists counts 0 subtopics (by induction over the topic list in EmptyTopicsSumZero); the default empty topic list also counts 0 topics |
| Content.FlattenMembership | src/main/java/com/learning/courseplatform/entity/Course.java:37-41 | a subtopic belongs to the flattened course exactly when it belongs to one of its topics |
| Content.FindCourse | src/main/java/com/learning/courseplatform/service/CourseService.java:42-43 | findById gives a stored course with that id, and gives none exactly when no course has the id |
| Content.FindCourseFindsMember | src/main/java/com/learning/courseplatform/service/CourseService.java:42-43 | with unique ids, looking a stored course up by its id returns that course |
| Content.FindSubtopic | src/main/java/com/learning/courseplatform/service/ProgressService.java:42-46 | the subtopic found by id has that id and belongs to the course whose id is returned; nothing is found exactly when no catalog subtopic has the id |
| JavaString.Lower | src/main/java/com/learning/courseplatform/service/CourseService.java:89 | toLowerCase keeps the length and maps only `A`-`Z` to `a`-`z`, position by position |
| JavaString.TrimSpec | src/main/java/com/learning/courseplatform/service/CourseService.java:73 | trim gives an untrimmable-ended string no longer than its input; it is empty exactly for blank strings and is the identity on trimmed strings; it removes only characters `<= ' '` at the ends |
| JavaString.TrimKeepsSpan | src/main/java/com/learning/courseplatform/service/CourseService.java:141 | a stretch whose end characters are not whitespace survives trim, at the shifted position |
| JavaString.IndexOf | src/main/java/com/learning/courseplatform/service/CourseService.java:129 | indexOf is -1 exactly when the pattern does not occur, and otherwise the first position where it occurs |
| CourseService.GetAllCourses | src/main/java/com/learning/courseplatform/service/CourseService.java:24-38 | one summary per stored course in store order, with id, title, description and the counts of its topics and subtopics |
| CourseService.DetailRoundTrip | src/main/java/com/learning/courseplatform/service/CourseService.java:45-68 | the detail view loses nothing: the course can be read back from it, with all ids, titles, contents and orders |
| CourseService.GetCourseById | src/main/java/com/learning/courseplatform/service/CourseService.java:41-69 | NotFound with the "Course with id ... does not exist" message exactly when no course has the id, otherwise that course's detail view |
| CourseService.TruncateText | src/main/java/com/learning/courseplatform/service/CourseService.java:144-148 | "" for null, the text when it fits, otherwise its first maxLength characters then "..."; never longer than maxLength + 3 |
| CourseService.SnippetWindow | src/main/java/com/learning/courseplatform/service/CourseService.java:134-135 | the window holds the whole match and stays within the content; it has 50 characters before the match and 100 beyond the query length, unless clamped at an edge |
| CourseService.ExtractSnippet | src/main/java/com/learning/courseplatform/service/CourseService.java:125-142 | without a case-insensitive occurrence the snippet is the 150-character truncation; the snippet is never longer than the window plus two ellipses |
| CourseService.SnippetEllipses | src/main/java/com/learning/courseplatform/service/CourseService.java:134-141 | for a match, the snippet starts with "..." whenever the window starts after the content start, and ends with "..." whenever it stops short of the content end; in each of the four cases (clamped at neither, either or both edges) it is the trimmed window with exactly those ellipses added |
| CourseService.TrimmedElidedShowsOccurrence | src/main/java/com/learning/courseplatform/service/CourseService.java:137-141 | an occurrence of a trimmed query inside the window survives the ellipses and the final trim |
| CourseService.SnippetShowsMatch | src/main/java/com/learning/courseplatform/service/CourseService.java:125-142 | for a non-empty query without leading or trailing whitespace, the snippet of a content match contains the query case-insensitively |
| CourseService.SubtopicMatchKinds | src/main/java/com/learning/courseplatform/service/CourseService.java:93-114 | a match's type string is "subtopic" or "content" as below; a subtopic gives a "subtopic" match whenever its lower-cased title contains the lower-cased query; it gives a "content" match only when the title does not and the non-null content does; otherwise no match. The match names the subtopic and its topic |
| CourseService.TitleMatchWins | src/main/java/com/learning/courseplatform/service/CourseService.java:94-102 | a title match is a single "subtopic" match whose snippet is the content truncated to 150 characters, whatever the content holds |
| CourseService.SubtopicsMatchesExact | src/main/java/com/learning/courseplatform/service/CourseService.java:92-115 | a topic's matches are in subtopic order, at most one per subtopic, each a subtopic's own match, and none missing |
| CourseService.TopicsMatchesExact | src/main/java/com/learning/courseplatform/service/CourseService.java:91-116 | a course's matches follow topic-then-subtopic order, at most one per subtopic, each from a subtopic of the course, and none missing |
| CourseService.MatchSubtopic | src/main/java/com/learning/courseplatform/service/CourseService.java:93-114 | the loop body gives a "subtopic" match exactly when the lower-cased title contains the lower-cased query, and a "content" match exactly when the title does not and the non-null content does; a match names the topic and subtopic and carries the truncated content or the snippet |
| CourseService.AppendTopicMatches | src/main/java/com/learning/courseplatform/service/CourseService.java:92-115 | the inner loop appends exactly the topic's subtopic matches, in subtopic order, to the matches so far |
| CourseService.BuildSearchResult | src/main/java/com/learning/courseplatform/service/CourseService.java:87-123 | the outer loop, running AppendTopicMatches per topic, produces the course's id, title and all its subtopics' matches in topic-then-subtopic order |
| CourseService.MatchesWithinSubtopicCount | src/main/java/com/learning/courseplatform/service/CourseService.java:87-123 | a course never has more matches than getSubtopicCount |
| CourseService.CollectResultsExact | src/main/java/com/learning/courseplatform/service/CourseService.java:79-82 | kept results each have a match and are the results of input courses in input order; every course with a match is kept |
| CourseService.SearchCourses | src/main/java/com/learning/courseplatform/service/CourseService.java:72-85 | the response echoes the query; a null or blank query gives no results; otherwise the repository is asked with the trimmed query and its courses are matched with the untrimmed query |
| ProgressEntity.Stamped | src/main/java/com/learning/courseplatform/entity/SubtopicProgress.java:40-52 | a completed record always ends up with a completion time; an existing time is never replaced; an incomplete record keeps what it had |
| ProgressEntity.StampedIdempotent | src/main/java/com/learning/courseplatform/entity/SubtopicProgress.java:40-52 | running the hook again, at any later time, changes nothing |
| ProgressEntity.SubtopicProgress.constructor | src/main/java/com/learning/courseplatform/entity/SubtopicProgress.java:34-38 | a new record has no id, user or subtopic, is not completed and has no completion time |
| ProgressEntity.SubtopicProgress.Load | src/main/java/com/learning/courseplatform/entity/SubtopicProgress.java:21-38 | a loaded record carries the stored row's fields |
| ProgressEntity.SubtopicProgress.OnCreate | src/main/java/com/learning/courseplatform/entity/SubtopicProgress.java:40-45 | @PrePersist applies the stamping rule to completedAt and changes no other field |
| ProgressEntity.SubtopicProgress.OnUpdate | src/main/java/com/learning/courseplatform/entity/SubtopicProgress.java:47-52 | @PreUpdate applies the same rule |
| Database.FindEnrollment | src/main/java/com/learning/courseplatform/service/EnrollmentService.java:69-70 | findById gives a stored enrollment with that id, and gives none exactly when no enrollment has it |
| Database.FindProgress | src/main/java/com/learning/courseplatform/repository/SubtopicProgressRepository.java:14 | findByUserIdAndSubtopicId gives the position of a row with that (user, subtopic) key, with none before it, or none exactly when no row has the key |
| Database.FindProgressFirst | src/main/java/com/learning/courseplatform/repository/SubtopicProgressRepository.java:14 | the lookup finds the first row with the key |
| Database.Store.constructor | src/main/java/com/learning/courseplatform/entity/SubtopicProgress.java:12-14 | an empty database over a catalog with unique course ids satisfies the table constraints |
| Database.Store.InsertEnrollment | src/main/java/com/learning/courseplatform/service/EnrollmentService.java:51-55 | save appends the enrollment under the next IDENTITY id and touches nothing else |
| Database.Store.SaveProgress | src/main/java/com/learning/courseplatform/service/ProgressService.java:71 | save inserts a record without an id under the next id after @PrePersist, or overwrites its row after @PreUpdate; the record gets the saved id, flag and time and keeps its user and subtopic |
| EnrollmentService.EnrollUnknownCourse | src/main/java/com/learning/courseplatform/service/EnrollmentService.java:44-45 | an unknown course is NotFound and writes nothing |
| EnrollmentService.EnrollDuplicate | src/main/java/com/learning/courseplatform/service/EnrollmentService.java:47-49 | a second enrollment in a known course is Conflict("Already enrolled") and writes nothing |
| EnrollmentService.EnrollSuccess | src/main/java/com/learning/courseplatform/service/EnrollmentService.java:51-62 | a first enrollment appends exactly one row for this user and catalog course under the next id, keeps every earlier row, and the response describes the new row |
| EnrollmentService.EnrollPreservesValid | src/main/java/com/learning/courseplatform/service/EnrollmentService.java:42-63 | enrolling keeps next ids, catalog courses and one row per (user, course) |
| EnrollmentService.EnrollTwiceConflicts | src/main/java/com/learning/courseplatform/service/EnrollmentService.java:47-49 | right after a successful enrollment, the same call is a Conflict and leaves the table as it is |
| EnrollmentService.EnrollInCourse | src/main/java/com/learning/courseplatform/service/EnrollmentService.java:42-63 | the method gives the response and enrollments table of the value model, keeps the database valid and leaves progress alone |
| EnrollmentService.RoundedPercent | src/main/java/com/learning/courseplatform/service/EnrollmentService.java:87-89 | the percentage is 0 when the course has no subtopics |
| EnrollmentService.RoundedPercentNearest | src/main/java/com/learning/courseplatform/service/EnrollmentService.java:87-89 | Math.round to two decimals gives the hundredth nearest to completed*100/total, halves rounded up |
| EnrollmentService.RoundedPercentExamples | src/main/java/com/learning/courseplatform/service/EnrollmentService.java:87-89 | nothing completed is 0.00, everything completed is 100.00, one of four is 25.00 |
| EnrollmentService.RoundedPercentAtMostHundred | src/main/java/com/learning/courseplatform/service/EnrollmentService.java:87-89 | the percentage never exceeds 100.00 while the completed count is within the total |
| EnrollmentService.CompletedItems | src/main/java/com/learning/courseplatform/service/EnrollmentService.java:91-97 | one item per completed row, in row order, with the subtopic's id and title and the completion time |
| EnrollmentService.CourseProgressExact | src/main/java/com/learning/courseplatform/repository/SubtopicProgressRepository.java:16-21 | the per-course query returns exactly the user's rows for subtopics of that course, each once; the model lists them in table order |
| EnrollmentService.CompletedRowsExact | src/main/java/com/learning/courseplatform/service/EnrollmentService.java:82-84 | the completed filter keeps exactly the completed rows, in order |
| EnrollmentService.ProgressFailures | src/main/java/com/learning/courseplatform/service/EnrollmentService.java:69-74 | an unknown enrollment is NotFound("Enrollment not found"); another user's enrollment is Forbidden("Access denied"); NotFound is decided first |
| EnrollmentService.ProgressSummary | src/main/java/com/learning/courseplatform/service/EnrollmentService.java:76-107 | for the owner: total is the number of the course's subtopics; completed counts the user's completed rows for that course, which are exactly those rows (listed in table order in the model); one item per row; the percentage is their rounded share |
| EnrollmentService.CompletedRowsDistinct | src/main/java/com/learning/courseplatform/service/EnrollmentService.java:79-84 | the selected rows keep the table's distinct (user, subtopic) keys |
| EnrollmentService.RowsWithinCourse | src/main/java/com/learning/courseplatform/entity/SubtopicProgress.java:12-14 | one user's rows with distinct keys, for subtopics of one course, are no more than the course's subtopics |
| EnrollmentService.CompletedWithinTotal | src/main/java/com/learning/courseplatform/service/EnrollmentService.java:76-89 | in a valid database the completed count never exceeds the total and the percentage never exceeds 100.00 |
| ProgressService.MarkUnknownSubtopic | src/main/java/com/learning/courseplatform/service/ProgressService.java:42-43 | an id no catalog subtopic has is NotFound("Subtopic with id ... does not exist") and writes nothing |
| ProgressService.MarkNotEnrolled | src/main/java/com/learning/courseplatform/service/ProgressService.java:45-54 | a user not enrolled in the subtopic's course is Forbidden and writes nothing |
| ProgressService.MarkCompleteSucceedsIff | src/main/java/com/learning/courseplatform/service/ProgressService.java:42-54 | marking succeeds exactly when the subtopic exists and the user is enrolled in its course |
| ProgressService.MarkCompleteSuccess | src/main/java/com/learning/courseplatform/service/ProgressService.java:56-77 | on success the table holds a completed, stamped row for (user, subtopic) and the response reports it; a first completion (no row, or a row without a completion time) is stamped with the current time; rows with other keys are unchanged; a row is added only when none existed |
| ProgressService.MarkCompleteKeepsCompletedAt | src/main/java/com/learning/courseplatform/service/ProgressService.java:66-69 | a record already holding a completion time keeps it, in the table and in the response |
| ProgressService.MarkCompletePreservesValid | src/main/java/com/learning/courseplatform/service/ProgressService.java:56-71 | marking keeps next ids, catalog subtopics, stamped completions and one row per (user, subtopic) |
| ProgressService.MarkCompleteIdempotent | src/main/java/com/learning/courseplatform/service/ProgressService.java:56-77 | repeating a successful call at any later time gives the same response and the same table |
| ProgressService.CompleteRecord | src/main/java/com/learning/courseplatform/service/ProgressService.java:56-71 | loading or creating the record, completing it and saving it gives the table of the value model |
| ProgressService.MarkSubtopicComplete | src/main/java/com/learning/courseplatform/service/ProgressService.java:38-78 | the method gives the response and progress table of the value model, keeps the database valid and leaves enrollments alone |

## Left out

- The `!= null` guards of `Course.getTopicCount`, `Course.getSubtopicCount` and `Topic.getSubtopicCount` are not modelled. Topic and subtopic lists are sequences that are never null: the entities default them to empty lists.
- Java `int` overflow of counts, indices and `completedCount * 100.0` is not modelled, because integers are unbounded.
- EnrollmentService.RoundedPercent: the IEEE `double` arithmetic of the percentage is not modelled. The model gives the exact half-up rounding in hundredths, which the double computation can differ from in its last digit.
- `String.toLowerCase` is modelled for ASCII letters only. Locale and other Unicode case mappings are not modelled.
- JPA and Spring are not modelled: transactions, lazy loading, concurrent requests and managed-entity aliasing. An entity object is loaded from a row, changed, and written back by `save`.
- Database.Store.SaveProgress: `@PreUpdate` is modelled as firing on every save of an existing record. A clean entity would not be flushed, but the hook is a no-op on a record that is already completed and stamped.
- CourseService.SearchCourses: `CourseRepository.searchCourses` is a database query whose text is not part of this model. It is a parameter, called with the trimmed query.
- `getCurrentUser` and its "User not found" failure are not modelled. The current user's id is a parameter. `UserRepository` and `AuthService` are not part of this model.
- Controllers, `GlobalExceptionHandler` (the HTTP status mapping), `DataLoader` and the DTO classes are not modelled. The DTOs appear only as response datatypes.
- `Enrollment.java` is not part of this model. `enrolledAt` is taken to be the `now` passed in.
- Database.Store.SaveProgress requires a record with a user and a subtopic, and an id that names an existing row. The database would reject anything else with a constraint violation, and the service never saves such a record.
- ProgressService.MarkSubtopicComplete looks subtopics up by id across the whole catalog and takes the first match. Subtopic ids are primary keys and unique, but the model does not assume this.
- CourseService.TruncateText, CourseService.SnippetWindow, CourseService.ExtractSnippet: lengths and indices count characters, not UTF-16 code units, so a cut through a surrogate pair cannot be expressed. Java's `StringIndexOutOfBoundsException` is not modelled either: with full Unicode, `toLowerCase` can lengthen the text (`İ` becomes two chars), so an index found in the lower-cased content can lie past the original content's end. The model's ASCII `toLowerCase` keeps the length, so that cannot happen.
- The `description` of a `Course` is a plain string and is never null in the model. The column is nullable (`Course.java:24-25`); a null description would pass through the listing and detail views unchanged.
- EnrollmentService.CourseProgressExact, EnrollmentService.ProgressSummary: `findByUserIdAndCourseId` has no `ORDER BY`, so the database may return the rows, and so `completedItems`, in any order. The model fixes table order. The set of rows and the counts do not depend on the order.
- Database.Store.InsertEnrollment, Database.Store.SaveProgress: IDENTITY ids are modelled as gap-free, so the next id is the table size plus one and row `i` has id `i + 1`. A real database can leave gaps after rolled-back inserts or deletes. Only the uniqueness of ids matters to the services.
- CourseService.SnippetShowsMatch is stated for queries without leading or trailing whitespace. For other queries, the final `trim` of the snippet can cut into the matched text.
