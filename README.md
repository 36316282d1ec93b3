# Kazakh learning platform: grading, progress and trophies in Dafny

This project models the part of the platform's Flask backend (`app.py`) that
grades course tests and keeps the learner's counters. The handlers modelled
are:

- `submit_test`: grades each answer, computes the percentage, records the
  result, grants the perfect-score trophies and counts the course as
  completed;
- `learn_word`: upserts a learned word and recounts the user's learned
  words;
- the body of `complete_lesson`: looks up the lesson and upserts a progress
  row;
- `get_course_test`: lists a course's questions without their answers;
- the progress and trophy views: per-course progress, overall progress and
  the `earned` flag.

The relational store becomes the class `Store.Store`. Each table the modelled
handlers read or write is one field; `words` and `grammar_rules` are not
modelled.
A table with a UNIQUE key becomes a `map` keyed by it, or a `set`:

- `INSERT OR REPLACE` becomes a map update;
- `INSERT OR IGNORE` becomes a set union;
- the append-only `user_test_results` becomes a `seq`.

Each handler that changes the store is a method whose `ensures` states the
whole new state and the response. The test listing is a method whose loop
builds the answer-free questions. Per-course progress, overall progress and
the trophy listing are functions with contracts. The formulas the handlers
share are functions with lemmas:

- answer normalisation, Python's `strip().lower()`;
- the percentage, `part / whole * 100` or 0;
- the score and total of a test.

Files:

| file | module | contents |
|---|---|---|
| `schema.dfy` | `Schema` | rows, enumerations, `Option`, `Result`, error responses |
| `normalize.dfy` | `Normalize` | `str.isspace`, `strip`, `lower`, and the answer comparison |
| `percent.dfy` | `Percentages` | the percentage formula, the pass mark of 70, pass/perfect in integer terms |
| `grading.dfy` | `Grading` | the course's questions, answer keys, the verdict, the score, the grading loop, the answer-free listing |
| `store.dfy` | `Store` | the store class and handlers, the result/trophy/progress/learned-word views and their lemmas |

The main properties proved:

- **Grading.** The score is the sum of the points of exactly the correctly
  answered questions. With positive points, full marks happen if and only if
  every answer is correct.
- **Answer comparison.** Surrounding whitespace never changes a verdict, and
  neither does letter case for the letters modelled. Normalisation is
  idempotent.
- **Thresholds in integers.** Passing means `100 * score >= 70 * total` with
  `total > 0`. Perfect means `score == total > 0`. A perfect result is a
  passing one.
- **Completed courses.** `total_courses_completed` is raised exactly on the
  user's first passing result for a course. So the number of distinct passed
  courses is an invariant that `submit_test` preserves.
- **Trophies.** After a perfect result, every `perfect_tests` trophy shows as
  earned for that user, and no other user's listing changes.
- **Learned words.** Learning a word resets the user's `total_words_learned`
  to the number of the user's learned-word records, whatever it held before.
  That number grows by one exactly when the word is new to the user.
- **Completed lessons.** Completing a lesson adds at most one completed lesson
  to its course.
- **Listing.** The test listing loses only the correct answer: putting the
  answer back gives the stored question.

Design decisions:

- **Percentages are exact rationals.** Python computes them with floats. The
  thresholds are compared with exact values.
- **The session is an `Option<UserId>` parameter.** `None` gives the 401
  response and changes nothing.
- **SQLite does not enforce foreign keys here.** `database.py` never turns
  them on, so neither `learn_word` nor `submit_test` checks that the word or
  course exists. An `UPDATE users … WHERE id = ?` for a missing user row
  changes nothing. The model does the same.
- **`complete_lesson` is modelled by its body only.** It is declared without
  parameters (app.py:300), although its route carries `<int:lesson_id>`. Flask
  passes route variables as keyword arguments, so as written the handler
  fails before its body runs. The model takes the lesson id as the body
  expects (it reads `request.view_args['lesson_id']`).
- **The completed-courses update follows the code's SQL.** The update runs
  after the insert. It raises the counter unless the user now has more than
  one passing result for the course. `RecordResult` does exactly this, and its
  `ensures` states it in first-pass form: no earlier passing result. Both
  forms are proved equal (`PassCountAppend`).
- **Trophies are granted only as the code grants them.** No handler updates
  `total_trophies`, and no handler grants `words_learned` or other trophies
  by threshold. The only trophies granted are the `perfect_tests` ones after
  a perfect test, whatever their `requirement_value`.

## Model

| member | source | states |
|---|---|---|
| `Store.Store.SubmitTest` | app.py:459-536 | without a session: 401 and no change; otherwise the response's score is the points of the correctly answered questions of the course, total the sum of their points, percentage the exact `score/total*100` (0 when no points), `passed` iff it reaches 70, one result per question in table order with its verdict and stored answer; the result row is appended, `perfect_tests` trophies granted iff the percentage is 100, the user's completed-course counter raised iff passed and it is the user's first passing result for that course; and the counter stays equal to the number of distinct passed courses if it was before |
| `Store.Store.RecordResult` | app.py:500-525 | appends exactly one result row with the given values; grants every `perfect_tests` trophy (insert-or-ignore) iff the percentage is 100; raises `total_courses_completed` of an existing user by one iff the percentage reaches 70 and the user had no earlier passing result for the course (the SQL `HAVING COUNT(*) > 1` check taken after the insert); keeps the counter equal to the number of distinct passed courses |
| `Grading.GradeAll` | app.py:478-498 | the loop's score is the sum of the points of the questions the verdict accepts, its total the sum of all points, and its results list, per question in order, the id, the verdict and the stored correct answer |
| `Grading.CourseQuestions` | app.py:472-476 | a question is selected iff it is stored and belongs to the requested course; the selection is no longer than the table |
| `Grading.CourseQuestionsCount` | app.py:472-476 | each question of the course is selected exactly as often as it is stored, and no question of another course is selected |
| `Grading.ScoreIsPointsOfCorrect` | app.py:491-492 | the score equals the total points of the accepted questions, taken in order |
| `Grading.ScoreBounds` | app.py:486-492 | with non-negative point values the score lies between 0 and the total |
| `Grading.FullScoreIffAllCorrect` | app.py:486-492 | with positive point values the score equals the total iff every question was answered correctly |
| `Grading.UnansweredQuestion` | app.py:488-489 | a question with no submitted answer is judged as the empty answer: correct iff its stored answer normalises to the empty string |
| `Grading.DecimalString` | app.py:483 | `str(id)` of a natural number is a non-empty string of decimal digits, without leading zeros, and exactly `"0"` for 0 |
| `Grading.DecimalRoundTrip` | app.py:483 | reading back the decimal key of a question id gives the id |
| `Grading.AnswerKeysDistinct` | app.py:483 | distinct question ids look up distinct keys of the submitted answers |
| `Grading.Accepted` | app.py:491-492 | a question is accepted iff it is stored and the verdict accepts it |
| `Grading.AcceptedCount` | app.py:491-492 | each question the verdict accepts appears among the accepted ones exactly as often as it is stored, and no other question appears |
| `Grading.HideDropsOnlyAnswer` | app.py:452-454 | the listed question with its answer restored is the stored question; two questions list the same iff they differ only in their answers |
| `Store.Store.CourseTest` | app.py:443-454 | lists every question of the course, in order, each without its correct answer |
| `Normalize.LowerChar` | app.py:488-489 | lower-casing leaves no modelled upper-case letter, keeps whitespace as whitespace and non-whitespace as non-whitespace, and fixes every other character |
| `Normalize.StripLeftSpec` | app.py:488 | `lstrip()` returns a suffix, removes only whitespace, and stops at a non-whitespace character |
| `Normalize.StripRightSpec` | app.py:488 | `rstrip()` returns a prefix, removes only whitespace, and stops at a non-whitespace character |
| `Normalize.StripResult` | app.py:488-489 | `strip()` leaves nothing to strip, and stripping twice is stripping once |
| `Normalize.NormalizedIdempotent` | app.py:488-489 | normalising a normalised answer changes nothing |
| `Normalize.StripLeftPrefix` | app.py:488 | leading whitespace is invisible to `lstrip()` |
| `Normalize.StripRightSuffix` | app.py:488 | trailing whitespace is invisible to `rstrip()` |
| `Normalize.StripLeftAppend` | app.py:488 | `lstrip()` of a string followed by whitespace keeps that whitespace unless everything is whitespace |
| `Normalize.StripIgnoresPadding` | app.py:488 | whitespace added on either side does not change `strip()` |
| `Normalize.MatchIgnoresPadding` | app.py:488-489 | a submission padded with whitespace gets the same verdict as the bare one |
| `Normalize.CasePairLowers` | app.py:488 | `lower()` maps both letters of an upper/lower-case pair of the modelled scripts to the lower-case one |
| `Normalize.SameUpToCaseLowerAlike` | app.py:488 | two strings whose characters are equal or case pairs lower-case to the same string, character by character |
| `Normalize.StripLeftLowerAlike` | app.py:488 | strings that lower-case alike still do so after `lstrip()` |
| `Normalize.StripRightLowerAlike` | app.py:488 | strings that lower-case alike still do so after `rstrip()` |
| `Normalize.MatchIgnoresCase` | app.py:488-489 | two submissions that differ only in letter case, by the table of case pairs, get the same verdict |
| `Percentages.Percent` | app.py:500 | 0 when the whole is not positive, otherwise the exact value whose product with the whole is 100 times the part |
| `Percentages.PassedIff` | app.py:534 | a result passes iff there are points and `100 * score >= 70 * total` |
| `Percentages.PerfectIff` | app.py:509 | a result is 100% iff there are points and all of them were scored |
| `Percentages.PerfectIsPassed` | app.py:509-516 | every perfect result is a passing one, so a perfect first attempt also completes the course |
| `Percentages.PercentBounds` | app.py:500 | a part between 0 and the whole gives a percentage between 0 and 100 |
| `Percentages.PercentMonotonic` | app.py:500 | a larger part of the same whole never gives a smaller percentage |
| `Store.PassCountAppend` | app.py:519-524 | appending a row adds one to the user's passing count for a course iff the row is theirs, for that course, and passing |
| `Store.PassedCoursesAppend` | app.py:516-524 | appending a passing row of the user adds its course to the passed courses, and any other row adds nothing |
| `Store.PassCountZeroIff` | app.py:519-524 | the user has no passing result for a course iff the course is not among the passed ones |
| `Store.PassedCoursesGrowth` | app.py:516-525 | a new row grows the number of passed courses by one exactly when the raise condition of the handler holds, and by nothing otherwise |
| `Store.PerfectGrants` | app.py:509-513 | the perfect-score insert grants the user every trophy whose `requirement_type` is `perfect_tests`, and nothing else |
| `Store.TrophyListing` | app.py:546-558 | lists every trophy in table order; for a signed-in user each `earned` flag says whether the user holds that trophy, and without a session there is no flag |
| `Store.ListingAfterPerfectGrants` | app.py:541-558 | after a perfect result's grants, every `perfect_tests` trophy is listed as earned for that user and every other user's listing is unchanged |
| `Store.Store.LearnWord` | app.py:333-364 | without a session: 401; without a truthy `word_id`: 400; both change nothing; otherwise the (user, word) record is replaced with proficiency 1 and an existing user's `total_words_learned` becomes the number of their records, which grew by one iff the word was new to them |
| `Store.LearnedCountAfterUpsert` | app.py:348-359 | the upsert adds one record to the user's count iff the word was not recorded yet |
| `Store.LearnedByOthersUnchanged` | app.py:348-359 | one user's upsert leaves every other user's records unchanged |
| `Store.Store.CompleteLesson` | app.py:299-329 | without a session: 401; an unknown lesson: 404; both change nothing; otherwise the (user, lesson) progress row is replaced with the lesson's course and `completed`, adding one completed lesson to that course iff it was not completed yet |
| `Store.CompletedLessonsAfterUpsert` | app.py:320-324 | the upsert adds one completed lesson to its course's count iff it was not completed before |
| `Store.CourseProgress` | app.py:229-244 | for a listed course: 0 when it has no lessons, otherwise the exact `completed / total_lessons * 100`; between 0 and 100 while no more lessons are completed than declared, and 100 when all are |
| `Store.OverallProgress` | app.py:147-173 | without a session: 401; no user row: an error; no courses: 0; otherwise the exact `total_courses_completed / number of courses * 100`, which lies between 0 and 100 while the counter is between 0 and the number of courses |

## Left out

- Floating point: percentages are exact rationals. Any difference between
  the float quotient and the exact value at the 70 and 100 thresholds is not
  modelled. The response's `round(percentage, 2)` and the stats handler's
  `round(...)` are not modelled either.
- `SubmitTest`: the response's percentage is the exact value, not the value
  rounded to two places.
- `OverallProgress`: returns the unrounded share. The handler answers with
  `round()` of it and the other stats columns.
- `OverallProgress`: when the user row is missing, the handler crashes on
  `dict(None)`. The model returns the `UserNotFound` error instead.
- `LowerChar`: Python's `lower()` is modelled only for ASCII, Latin-1, the
  basic Cyrillic block and the Kazakh letters Ә Ғ Қ Ң Ө Ұ Ү Һ. Other scripts
  are left unchanged.
- JSON: request bodies are modelled only in the shapes the handlers read.
  - `answers` is a map from string keys to string answers, and a missing
    `answers` field is the empty map.
  - `word_id` is an integer, where absent or 0 means "required".
  - A missing or non-JSON body, non-string answers and non-integer word ids
    are left out.
  - The JSON decoding of `options` in the listing is left out, so options
    stay in their stored form.
- Authentication, registration, login, password hashing and the session
  cookie are not modelled. The session is a parameter.
- Timestamps: `completed_at`, `learned_at`, `earned_at` and `last_login`
  come from the clock and are not stored.
- SQL ordering: rows come back in table order. The `ORDER BY` clauses of
  handlers outside the model are not modelled.
- Handlers outside grading, progress and trophies are not modelled:
  - `get_user_profile`, `update_user`;
  - `get_course`, `get_lesson`, `get_learned_words`;
  - the grammar endpoints, `check_session`, static file serving.
- The earned-trophies list of the stats handler is not modelled.
- The schema creation and seed data of `database.py` are not part of this
  model. The store starts from a given catalog.
- Concurrency and transactions: each handler is one atomic step.
- Question ids are taken as non-negative (`nat`). An `INTEGER PRIMARY KEY`
  can hold an explicitly inserted negative id, whose key `str(id)` would start
  with `-`. AUTOINCREMENT never produces one.
- NULL counters: the model's integer columns always hold a value. Three of
  them are nullable in the schema:
  - `course_tests.points` (database.py:137);
  - `courses.total_lessons` (database.py:39);
  - `users.total_courses_completed` (database.py:22).
  With a NULL there, the handlers raise `TypeError` at app.py:486, app.py:239
  and app.py:169. The model has no such failure path.
