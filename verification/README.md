# study_helper backend: a Dafny model of the content, progress, quiz and user rules

study_helper is a FastAPI/SQLAlchemy learning platform. Content is a hierarchy:
categories hold courses, courses hold units, and units hold videos. Learners
record per-user progress on courses and videos, and take a quiz attached to
a video. This project models the request handlers of that backend as pure
functions over an in-memory store. Each table is a `map<Id, Record>` and
each handler returns a `Result`: `Ok` with the new table and the returned
row, or `Err` with 404 (`NotFound`), 400 (`BadRequest`) or an uncaught
exception that the server reports as 500 (`ServerError`).

Modules, following the backend's layout:

- `Wrappers`: `Option`, `Result`, `Error`, the partial-update field
  `Patch` (`Keep` when the field was not sent, `Put(v)` when it was), and
  JSON scalars `Value`.
- `Schemas`: stored rows and request bodies (the pydantic schemas of
  `schemas/learning.py`), including the defaults of the create bodies.
- `Tables`: lookup and delete by primary key.
- `Siblings`: the rules every level of the hierarchy applies among rows of
  one parent. Titles are unique per parent, and a new row gets
  `order = siblings + 1`.
- `Listing`: filter by parent, `ORDER BY order`, `OFFSET/LIMIT`. Also
  ascending-id listings.
- `Reorder`: the all-or-nothing batch reorder shared by units and videos.
- `Percent`: `(part / whole) * 100` in exact arithmetic.
- `Text`: Python's `str.strip()` and `str()` of an integer.
- `Courses`, `Units`, `Videos`, `Categories`, `Users`: the endpoint files.
- `Quizzes`: the quiz scoring function `calculate_quiz_score` and the quiz endpoints.

Parameters stand for things the handlers get from outside:

- The database hands out the key of a new row; the model takes it as a
  parameter `id` that is not yet in the table.
- The password hash is a function parameter `hash: string -> string`. The
  source hashes with bcrypt, which salts every call afresh, so `hash` stands
  for the output of one request's call and two requests take two parameters.
- The authenticated user is a parameter `userId`.

## Model

| member | source | states |
|---|---|---|
| Quizzes.FirstCorrect | backend/app/api/endpoints/videos.py:311-314 | `None` exactly when no choice is flagged correct. Otherwise the result is a flagged choice that no earlier choice precedes as flagged. |
| Quizzes.Grade | backend/app/api/endpoints/videos.py:303-321 | Grading one question raises (500) exactly when it is answered and either a multiple-choice question whose `choices` is null or another question answered with a non-string. |
| Quizzes.CountCorrect | backend/app/api/endpoints/videos.py:300-321 | The number of scoring questions never exceeds the number of questions, and the only failure is a 500. |
| Quizzes.Score | backend/app/api/endpoints/videos.py:298-323 | The score of a quiz without questions is 0. Otherwise it succeeds exactly when counting succeeds, and it is the count as a percentage of ALL questions, between 0 and 100. |
| Quizzes.CountLoop | backend/app/api/endpoints/videos.py:300-321 | The loop that counts question by question and stops at the first raising question computes exactly the recursive count `CountCorrect`. |
| Quizzes.CountStep | backend/app/api/endpoints/videos.py:303-321 | Grading one more question adds one to the count of the prefix when it scores, keeps it when it does not, and turns it into the question's error when it raises. |
| Quizzes.CalculateQuizScore | backend/app/api/endpoints/videos.py:298-323 | The result is exactly `Score`: 0 for a quiz without questions, otherwise the first grading error or the percentage of scoring questions; it is within 0 and 100. |
| Quizzes.ErrorPersists | backend/app/api/endpoints/videos.py:303-321 | Once grading a prefix of the questions raises, grading the whole list raises the same error: the loop never recovers. |
| Quizzes.UnansweredNeverCounts | backend/app/api/endpoints/videos.py:304-306 | A question whose id, as a string, is not a key of the responses scores nothing and raises nothing. |
| Quizzes.MultipleChoiceIff | backend/app/api/endpoints/videos.py:308-316 | An answered multiple-choice question with choices scores if and only if the answer equals the id of the first choice flagged correct. |
| Quizzes.NoFlaggedNeverScores | backend/app/api/endpoints/videos.py:311-316 | A multiple-choice question with no flagged choice never scores, whatever the answer. |
| Quizzes.ShortAnswerIff | backend/app/api/endpoints/videos.py:317-321 | An answered short-answer question scores if and only if the answer has a non-whitespace character. |
| Quizzes.CountErrorIff | backend/app/api/endpoints/videos.py:303-321 | Grading a quiz raises if and only if some question is malformed for these responses. |
| Quizzes.NothingAnsweredCountsZero | backend/app/api/endpoints/videos.py:300-306 | With no question answered, the count is 0. |
| Quizzes.NothingAnsweredScoresZero | backend/app/api/endpoints/videos.py:300-323 | With no question answered, the score is 0. |
| Quizzes.AllScoringCountsAll | backend/app/api/endpoints/videos.py:300-321 | When every question scores, the count equals the number of questions. |
| Quizzes.AllScoringScoresHundred | backend/app/api/endpoints/videos.py:323 | When every question of a non-empty quiz scores, the score is exactly 100. |
| Quizzes.OneCorrectChoiceScoresHundred | backend/app/api/endpoints/videos.py:308-323 | A quiz with one multiple-choice question, answered with the id of the first choice flagged correct, scores 100, wherever that choice sits among the choices. |
| Quizzes.VideoQuiz | backend/app/api/endpoints/videos.py:209 | There is no quiz for a video exactly when no stored quiz belongs to it. Otherwise the result is the video's quiz with the smallest id. |
| Quizzes.GetVideoQuiz | backend/app/api/endpoints/videos.py:209-215 | 404 exactly when no quiz belongs to the video. Otherwise the result is a stored quiz of that video. |
| Quizzes.SubmitQuizAttempt | backend/app/api/endpoints/videos.py:225-246 | 404 if and only if the video has no quiz. The attempt is stored if and only if the video has a quiz and grading its questions succeeds. The stored attempt carries the caller, the responses, the id of the video's quiz (not the one in the body) and that quiz's score, which lies in 0 to 100. Any other failure is a 500 from grading. |
| Quizzes.SubmitCorrectAnswerScoresHundred | backend/tests/api/test_videos.py:35-65 | The attempt of the repository's own test succeeds with score 100, whatever quiz id the body sends. The video's only quiz has one multiple-choice question with choice 1 correct and choice 2 not, and the attempt answers `{"1": 1}`. |
| Text.StripEmptyIff | backend/app/api/endpoints/videos.py:320 | `s.strip()` is empty if and only if every character of `s` is whitespace. |
| Text.StripShape | backend/app/api/endpoints/videos.py:320 | `strip()` keeps one contiguous piece of its input, starting and ending with a non-space, and removes only whitespace. |
| Percent.Bounds | backend/app/api/endpoints/courses.py:294 | A part between 0 and a positive whole is between 0 and 100 percent. |
| Percent.Whole | backend/app/api/endpoints/courses.py:294 | The whole is exactly 100 percent. |
| Siblings.InsertKeepsUnique | backend/app/api/endpoints/units.py:73-99 | Storing a row whose title is free under its parent keeps titles unique among siblings. |
| Siblings.ReplaceKeepsUnique | backend/app/api/endpoints/units.py:119-134 | Replacing a row by one with the same parent and a title no sibling holds keeps titles unique. |
| Siblings.InsertAddsOneChild | backend/app/api/endpoints/units.py:85-93 | Storing a row adds exactly that row to its parent's children and changes no other parent's children. |
| Listing.Page | backend/app/api/endpoints/units.py:29 | `OFFSET skip LIMIT limit` returns at most `limit` rows: the rows from position `skip` on, in order. It is short only at the end of the list. |
| Listing.PagesConcatenate | backend/app/api/endpoints/units.py:29 | Two consecutive pages read together are the page that spans both. |
| Listing.ListPage | backend/app/api/endpoints/units.py:25-29 | A page holds only selected rows, each once, in ascending `order`. It has `min(limit, n - skip)` rows, or none when `skip >= n`, where `n` is the number of selected rows. Its `i`-th row is the one with exactly `skip + i` selected rows before it in (`order`, id) order. |
| Listing.RankOfPosition | backend/app/api/endpoints/units.py:25-29 | In a listing of the selected rows ordered by (`order`, id), position `k` holds the row with exactly `k` selected rows before it. |
| Listing.ListPagesConcatenate | backend/app/api/endpoints/units.py:25-29 | Two consecutive pages of a list endpoint read together are the page that spans both. |
| Listing.Ascending | backend/app/api/endpoints/categories.py:21 | Lists every id of a set exactly once, strictly ascending. |
| Reorder.PlanOkIff | backend/app/api/endpoints/units.py:172-192 | A batch reorder succeeds if and only if every item has both keys and an existing id. |
| Reorder.PlanErrorIsFirst | backend/app/api/endpoints/units.py:172-186 | A failed batch reports the error of the first rejected item: 400 for a missing key, 404 for an unknown id. |
| Reorder.PlanKeys | backend/app/api/endpoints/units.py:172-192 | A successful batch writes the order of exactly the ids some item names. |
| Reorder.PlanLastWins | backend/app/api/endpoints/units.py:172-192 | When an id is named more than once, the last item naming it decides its new order. |
| Tables.RemoveThenGet | backend/app/api/endpoints/units.py:149-158 | After a delete, reading that id is a 404 and every other id reads as before. |
| Units.GetUnits | backend/app/api/endpoints/units.py:25-29 | Lists only units of the course (all units when `course_id` is absent or 0), each once, by ascending `order`, at most `limit`. With no offset and a large enough limit, it lists all of them. The page has `min(limit, n - skip)` entries, or none when `skip >= n`, where `n` counts the selected rows. Its `i`-th entry is the one with exactly `skip + i` selected rows before it in (`order`, id) order. |
| Units.GetUnit | backend/app/api/endpoints/units.py:36-42 | 404 exactly for an unknown id, otherwise the stored unit. |
| Units.GetUnitVideos | backend/app/api/endpoints/units.py:49-61 | 404 for an unknown unit. Otherwise it lists exactly the videos of that unit, each once, by ascending `order`. |
| Units.CreateUnit | backend/app/api/endpoints/units.py:73-99 | 400 if and only if the course already has a unit with that title. Otherwise the unit is stored with the body's fields and the order one past the course's unit count, and nothing else changes. |
| Units.CreateUnitSkipsCourseCheck | backend/app/api/endpoints/units.py:73-99 | The handler never looks up the course: a create naming a course that does not exist succeeds when the title is free, where the parent-checked create gives 404. |
| Units.CreateUnitInCourse | backend/tests/unit/test_api/test_units.py:76-87 | The create its tests expect: 404 if and only if the course does not exist. Otherwise 400 if and only if the title is taken in that course, and a stored unit always belongs to an existing course. |
| Units.UpdateUnit | backend/app/api/endpoints/units.py:111-138 | 404 for an unknown id. 400 if and only if a new, non-empty, changed title is held by another unit of the current course. Otherwise exactly the fields sent change, only in that row. |
| Units.DeleteUnit | backend/app/api/endpoints/units.py:149-158 | 404 exactly for an unknown id. Otherwise exactly that unit disappears and every other row is unchanged. |
| Units.ReorderUnits | backend/app/api/endpoints/units.py:172-192 | Succeeds if and only if every item is acceptable, otherwise fails with the first item's error and writes nothing. On success, each named unit takes the order of the last item naming it, and unnamed units are unchanged. |
| Units.CreateAppends | backend/app/api/endpoints/units.py:85-93 | Once stored, a new unit's order equals the number of units in its course, and titles stay unique per course. |
| Units.CreateIgnoresRequestOrder | backend/app/api/endpoints/units.py:85-93 | The `order` in the create body makes no difference. |
| Units.UpdateIdempotent | backend/app/api/endpoints/units.py:111-138 | Repeating an accepted update changes nothing more. |
| Units.UpdateKeepsUnique | backend/app/api/endpoints/units.py:119-134 | An accepted update that neither moves the unit nor renames it to "" keeps titles unique per course. |
| Units.MoveCanDuplicateTitle | backend/app/api/endpoints/units.py:119-130 | The rename check looks only at the current course, so moving a unit into a course that already has its title succeeds and duplicates the title there. |
| Units.EmptyRenameSkipsCheck | backend/app/api/endpoints/units.py:119-121 | Renaming to "" skips the check (an empty string is falsy), so two units of a course can share the title "". |
| Courses.GetCourses | backend/app/api/endpoints/courses.py:29-33 | Lists only courses of the category (all courses when `category_id` is absent or 0), each once, by ascending `order`, at most `limit`. With no offset and a large enough limit, it lists all of them. The page has `min(limit, n - skip)` entries, or none when `skip >= n`, where `n` counts the selected rows. Its `i`-th entry is the one with exactly `skip + i` selected rows before it in (`order`, id) order. |
| Courses.GetCourse | backend/app/api/endpoints/courses.py:40-46 | 404 exactly for an unknown id, otherwise the stored course. |
| Courses.GetCourseUnits | backend/app/api/endpoints/courses.py:53-65 | 404 for an unknown course. Otherwise it lists exactly the units of that course, each once, by ascending `order`. |
| Courses.CreateCourse | backend/app/api/endpoints/courses.py:77-98 | 400 if and only if the category already has a course with that title. Otherwise the course is stored with the order one past the category's course count. |
| Courses.CreateCourseSkipsCategoryCheck | backend/app/api/endpoints/courses.py:77-98 | The handler never looks up the category: a create naming a category that does not exist succeeds when the title is free, where the parent-checked create gives 404. |
| Courses.CreateCourseInCategory | backend/tests/unit/test_api/test_courses.py:71-81 | The create its tests expect: 404 if and only if the category does not exist. Otherwise 400 if and only if the title is taken in that category, and a stored course always belongs to an existing category. |
| Courses.UpdateCourse | backend/app/api/endpoints/courses.py:115-138 | 404 for an unknown id. 400 if and only if a new, non-empty, changed title is held by another course of the current category. Otherwise exactly the fields sent change. |
| Courses.DeleteCourse | backend/app/api/endpoints/courses.py:153-162 | 404 exactly for an unknown id. Otherwise exactly that course disappears. |
| Courses.GetCourseProgress | backend/app/api/endpoints/courses.py:254-275 | An existing row for (user, course) is returned and nothing changes. Without a row: 404 for an unknown course, otherwise a row with nothing completed and the course's current unit count is inserted. |
| Courses.UpdateCourseProgress | backend/app/api/endpoints/courses.py:285-298 | 404 without a row. 500 if and only if the row's total is 0. Otherwise the completed count is set, the total kept, and percentage × total = completed × 100. |
| Courses.AllCompleteIsHundred | backend/app/api/endpoints/courses.py:293-294 | Reporting every unit complete gives exactly 100 percent. |
| Courses.PercentInRange | backend/app/api/endpoints/courses.py:293-294 | A completed count between 0 and a positive total gives a percentage between 0 and 100. |
| Courses.PercentCanExceedHundred | backend/app/api/endpoints/courses.py:293-294 | Nothing clamps the count: 3 completed of 2 units gives 150 percent. |
| Courses.GetProgressIdempotent | backend/app/api/endpoints/courses.py:254-275 | A second read of progress returns the same row and changes nothing. |
| Courses.EmptyCourseUpdateFails | backend/app/api/endpoints/courses.py:265-294 | For a course without units, the first read stores a total of 0, and every later update of that row is a 500. |
| Courses.CreateAppends | backend/app/api/endpoints/courses.py:87-95 | Once stored, a new course's order equals the number of courses in its category, and titles stay unique per category. |
| Courses.UpdateIdempotent | backend/app/api/endpoints/courses.py:115-138 | Repeating an accepted update changes nothing more. |
| Courses.UpdateKeepsUnique | backend/app/api/endpoints/courses.py:123-138 | An accepted update that neither moves the course nor renames it to "" keeps titles unique per category. |
| Videos.GetVideos | backend/app/api/endpoints/videos.py:27-31 | Lists only videos of the unit (all videos when `unit_id` is absent or 0), each once, by ascending `order`, at most `limit`. With no offset and a large enough limit, it lists all of them. The page has `min(limit, n - skip)` entries, or none when `skip >= n`, where `n` counts the selected rows. Its `i`-th entry is the one with exactly `skip + i` selected rows before it in (`order`, id) order. |
| Videos.GetVideo | backend/app/api/endpoints/videos.py:38-58 | 404 exactly for an unknown id, otherwise the stored video. The same holds for the metadata endpoint. |
| Videos.CreateVideo | backend/app/api/endpoints/videos.py:70-98 | 400 if and only if the unit already has a video with that title. Otherwise the video is stored with the order one past the unit's video count and the metadata sent, or an empty object when none was sent. The body's order, duration and thumbnail are not copied. |
| Videos.CreateVideoSkipsUnitCheck | backend/app/api/endpoints/videos.py:70-98 | The handler never looks up the unit: a create naming a unit that does not exist succeeds when the title is free, where the parent-checked create gives 404. |
| Videos.CreateVideoInUnit | backend/tests/unit/test_api/test_videos.py:81-93 | The create its tests expect: 404 if and only if the unit does not exist. Otherwise 400 if and only if the title is taken in that unit, and a stored video always belongs to an existing unit. |
| Videos.MergeMetadata | backend/app/api/endpoints/videos.py:135-138 | The merged object has the stored keys plus the patch's keys. Patched keys take the patch's value, and every other key keeps its stored value. |
| Videos.UpdateVideo | backend/app/api/endpoints/videos.py:110-146 | 404 for an unknown id, then 400 for a rename clash in the current unit, then 500 if and only if `video_metadata` is sent as null. Otherwise exactly the fields sent change, and the metadata is merged into the stored one. |
| Videos.DeleteVideo | backend/app/api/endpoints/videos.py:157-166 | 404 exactly for an unknown id. Otherwise exactly that video disappears. |
| Videos.ReorderVideos | backend/app/api/endpoints/videos.py:180-200 | Succeeds if and only if every item is acceptable, otherwise fails with the first item's error and writes nothing. On success, each named video takes the order of the last item naming it, and unnamed videos are unchanged. |
| Videos.GetVideoProgress | backend/app/api/endpoints/videos.py:255-269 | Returns an existing row unchanged. Otherwise it inserts and returns a row with progress and position 0, without checking the video. |
| Videos.UpdateVideoProgress | backend/app/api/endpoints/videos.py:279-296 | The caller's row, created if missing, holds the two values as sent, and no other row changes. |
| Videos.ProgressRoundTrip | backend/tests/api/test_videos.py:78-91 | A read after an update returns exactly the values written, including on the first write. |
| Videos.GetProgressIdempotent | backend/app/api/endpoints/videos.py:255-269 | A second read of progress returns the same row and changes nothing. |
| Videos.MergeKeepsAndSettles | backend/app/api/endpoints/videos.py:135-138 | A merge never drops a stored key, and merging the same patch again changes nothing. |
| Videos.CreateAppends | backend/app/api/endpoints/videos.py:81-92 | Once stored, a new video's order equals the number of videos in its unit, and titles stay unique per unit. |
| Videos.UpdateIdempotent | backend/app/api/endpoints/videos.py:110-146 | Repeating an accepted update, metadata merge included, changes nothing more. |
| Videos.UpdateKeepsUnique | backend/app/api/endpoints/videos.py:118-142 | An accepted update that neither moves the video nor renames it to "" keeps titles unique per unit. |
| Videos.NullMetadataFails | backend/app/api/endpoints/videos.py:135-138 | An explicit null `video_metadata` is a 500 even when the stored metadata is null too. |
| Videos.CreateFromMinimalBody | backend/app/schemas/learning.py:162-170 | A create body with only the required fields stores an empty metadata object and no description, and appends the video. |
| Categories.CreateCategory | backend/app/api/endpoints/categories.py:65-75 | 400 if and only if any category already has that name. Otherwise the category is stored as sent. |
| Categories.UpdateCategory | backend/app/api/endpoints/categories.py:89-100 | 404 exactly for an unknown id. Otherwise exactly the fields sent change, with no name check. |
| Categories.ReadCategory | backend/app/api/endpoints/categories.py:112-115 | 404 exactly for an unknown id, otherwise the stored category. |
| Categories.DeleteCategory | backend/app/api/endpoints/categories.py:128-133 | 404 exactly for an unknown id. Otherwise exactly that category is removed and returned. |
| Categories.GetCategoryCourses | backend/app/api/endpoints/categories.py:145-148 | 404 for an unknown category. Otherwise it lists exactly that category's courses, each once. |
| Categories.GetCategories | backend/app/api/endpoints/categories.py:20-51 | The listing the handler is meant to return, as its docstring says ("all categories with course progress"); the handler as written differs, see Findings. The ids listed are the stored category ids in ascending order. Each entry shows a stored category with exactly its courses. Each course carries the user's own progress row (or none), plus one entry per video of the course: the user's progress row for it, or none. |
| Categories.GetCategoriesAsWritten | backend/app/api/endpoints/categories.py:36-51 | The listing as the handler is written: the stored categories in ascending id order, each with its stored fields and no courses at all. |
| Categories.AsWrittenHidesCourses | backend/app/api/endpoints/categories.py:36-51 | Once any stored category holds a course, the listing as written differs from the intended one. |
| Categories.AsWrittenExample | backend/app/api/endpoints/categories.py:36-51 | For category 1 holding course 7, the listing as written differs from the intended one. |
| Categories.ListedByAscendingId | backend/app/api/endpoints/categories.py:21-51 | The listing has one entry per stored category, every listed id is stored, and ids strictly increase along the listing. |
| Categories.EveryCategoryOnce | backend/app/api/endpoints/categories.py:21-51 | Every stored category appears in the listing exactly once. |
| Categories.OtherUsersInvisible | backend/app/api/endpoints/categories.py:24-34 | Changing other users' progress rows never changes a user's listing. |
| Categories.CreateKeepsNamesUnique | backend/app/api/endpoints/categories.py:65-75 | Creating keeps category names unique. |
| Categories.RenameCanDuplicateName | backend/app/api/endpoints/categories.py:93-95 | A rename is not checked, so two categories can end up with one name. |
| Categories.UpdateIdempotent | backend/app/api/endpoints/categories.py:89-100 | Repeating an accepted update changes nothing more. |
| Users.CreateUser | backend/app/api/endpoints/users.py:40-53 | 400 if and only if the username exists. Otherwise the user is stored with the hash of the password and the other fields as sent. |
| Users.UpdateUser | backend/app/api/endpoints/users.py:125-144 | 404 exactly for an unknown id. Otherwise exactly the fields sent change. A non-empty password replaces the stored hash by its hash, and a null or empty one leaves the hash alone. |
| Users.ReadUserById | backend/app/api/endpoints/users.py:105-111 | 404 exactly for an unknown id, otherwise the stored user. |
| Users.DeleteUser | backend/app/api/endpoints/users.py:157-165 | 404 exactly for an unknown id. Otherwise exactly that user is removed and returned. |
| Users.CreateKeepsUnique | backend/app/api/endpoints/users.py:40-53 | Creating keeps usernames unique. |
| Users.CreateStoresOnlyHash | backend/app/api/endpoints/users.py:46-49 | The stored row depends on the password only through its hash. |
| Users.UpdateCanDuplicateUsername | backend/app/api/endpoints/users.py:132-139 | An update does not check the username, so two users can end up with one username. |
| Users.UpdateIdempotent | backend/app/api/endpoints/users.py:84-89 | Repeating an accepted self-update or admin update leaves every row and every field as the first request did, except the stored hash when a new password is sent, which becomes the second request's own salted hash. With no new password, the repeat changes nothing at all. |
| Users.RepeatedPasswordUpdateRehashes | backend/app/api/endpoints/users.py:84-86 | A repeated password update stores a different hash whenever the second request's salted hash of the password differs from the first's, so password updates are not idempotent. |

## Left out

- The React frontend: UI state and HTTP calls, with no backend rules in it.
- `scan_directory` in `courses.py`: filesystem I/O.
- Authentication and tokens (`auth.py`, `core/security`). The password hash is a function parameter that stands for one request's salted bcrypt call (`backend/setup.py:15`). The model does not look inside it.
- Admin and active-user gating. Its dependency module is not part of this model, so every handler is modelled as if authorisation passed.
- `read_users` and `read_user_me`. They are a plain unordered page of the table and the caller's own row.
- Configuration, database sessions, startup, API routing.
- Cascading deletes, timestamps and concurrent uniqueness races. These belong to ORM models and the database, which are not part of this model.
- Auto-increment keys. The new key is the parameter `id`, required to be fresh.
- Floating point. Scores and percentages are exact reals.
- An explicit JSON `null` for a non-nullable field in an update body: title, url, parent id, `order` (`schemas/learning.py:102,137,182`) or a category's `name` (`schemas/learning.py:70`). `Patch<int>` and `Patch<string>` cannot hold it. Whether the database accepts such a null depends on the ORM models, which are not part of this model, so the model keeps these fields non-null.
- JSON values other than integers and strings in responses and metadata.
- Stored quiz questions that lack a key (`KeyError`). This includes a choice stored without `is_correct`. The schema default `is_correct = False` (`schemas/learning.py:241-244`) belongs to a choice schema that quiz questions do not use, since they keep their choices as raw JSON objects (line 271). So that default never reaches grading and is not modelled.
- Users.UpdateIdempotent: equality of the whole table holds only when no new password is sent. The real hash is salted on every call, so a repeated password update stores a fresh hash; the lemma compares every other field and gives the stored hash as the second request's own output.
- Negative `skip`/`limit`. They are `nat` here.
- Rows with equal `order`. The database leaves their relative order open; the model breaks such ties by ascending id.
- An unordered `.first()` (the quiz of a video). The model takes the smallest id.
- `GET /categories` and `category.courses`. These are unordered queries, which the model lists by ascending id.
- Courses.UnitCount: `len(course.units)` is taken to be the number of units whose `course_id` is the course. The ORM relationship is not part of this model.
- `course.videos`: the ORM relationship is not part of this model. It is taken to be the videos in the course's units.
- Response-model filtering of returned fields.
- The content of the ORM models is not part of this model, so these are assumed:
  - a new course progress row starts with 0 completed and 0 percent;
  - a new video progress row starts at 0 and 0;
  - the video progress table has no further fields;
  - the user fields are `username`, `hashed_password`, `is_active` and `is_admin`;
  - the metadata merge in place is persisted.
- Videos.UpdateVideo: SQLAlchemy does not track an in-place `dict.update` on a plain JSON column. The model takes the merged metadata as persisted; if the column is not a mutable JSON type, the real handler may silently drop the merge.
- Quizzes.SubmitQuizAttempt: the `quiz_id` of the request body is ignored, as in the handler.
- Units.UpdateUnit, Courses.UpdateCourse, Videos.UpdateVideo: a move to a parent id that does not exist is not checked, as in the handlers. A foreign key in the database, which is not part of this model, would make it a 500.
- Units.CreateUnit, Courses.CreateCourse, Videos.CreateVideo: these model the handlers, which never look up the parent; see Findings. A foreign-key failure (500) is not modelled, since the ORM models are not part of this model.
- Reorder scope: items may name units of different courses or videos of different units. As in the handler, nothing checks this.

## Findings

| source | as written | input that shows it | evidently intended | confidence | as-written member | corrected member |
|---|---|---|---|---|---|---|
| backend/app/api/endpoints/categories.py:38-41 | `category_data = category.__dict__` then `category_data['courses'] = []` replaces the loaded relationship in the instance dictionary before `for course in category.courses`. The attribute reads that empty list back, so the loop body never runs. | Category 1 holding course 1: the handler lists category 1 with `courses: []`. | Each category with its courses, each course with the user's progress and per-video progress (docstring at line 20; the loop body at lines 41-47). | high (SQLAlchemy reads a key present in the instance dictionary); not executed | Categories.AsWrittenHidesCourses | Categories.GetCategories |
| backend/app/api/endpoints/units.py:73-99 | `create_unit` never looks up `course_id`. | `course_id` 999999 with no such course: no 404. The unit is stored, or the insert fails with 500 if the database enforces a foreign key. | 404, as backend/tests/unit/test_api/test_units.py:76-87 expects. | high that no 404 is returned; not executed | Units.CreateUnitSkipsCourseCheck | Units.CreateUnitInCourse |
| backend/app/api/endpoints/courses.py:77-98 | `create_course` never looks up `category_id`. | `category_id` 999999 with no such category: no 404. | 404, as backend/tests/unit/test_api/test_courses.py:71-81 expects. | high that no 404 is returned; not executed | Courses.CreateCourseSkipsCategoryCheck | Courses.CreateCourseInCategory |
| backend/app/api/endpoints/videos.py:70-98 | `create_video` never looks up `unit_id`. | `unit_id` 999999 with no such unit: no 404. | 404, as backend/tests/unit/test_api/test_videos.py:81-93 expects. | high that no 404 is returned; not executed | Videos.CreateVideoSkipsUnitCheck | Videos.CreateVideoInUnit |
