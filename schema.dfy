/**
 * Rows and enumerations of the learning platform's relational store,
 * reduced to the columns the grading, progress and trophy handlers use.
 * Timestamps, display texts of catalog rows and credentials are omitted.
 */
module Schema {

  type UserId = int
  type CourseId = int
  type LessonId = int
  type WordId = int
  type TrophyId = int

  /** The CHECK enumeration of `course_tests.question_type`; the column may also be NULL. */
  datatype QuestionType = MultipleChoice | Translation | FillBlank

  datatype Option<+T> = None | Some(value: T)

  /** The cached counters of a `users` row. */
  datatype User = User(
    streakDays: int,
    totalWordsLearned: int,
    totalCoursesCompleted: int,
    totalTrophies: int)

  /** A `courses` row: only the declared lesson count enters any computation. */
  datatype Course = Course(totalLessons: int)

  /** The question text in the three interface languages. */
  datatype Prompt = Prompt(en: string, kk: string, ru: string)

  /** A `course_tests` row; `options` stays in its stored (serialized) form. */
  datatype Question = Question(
    id: nat,
    courseId: CourseId,
    prompt: Prompt,
    questionType: Option<QuestionType>,
    correctAnswer: string,
    options: Option<string>,
    points: int)

  /** A question as the pre-grading listing shows it: there is no correct-answer field. */
  datatype PublicQuestion = PublicQuestion(
    id: nat,
    courseId: CourseId,
    prompt: Prompt,
    questionType: Option<QuestionType>,
    options: Option<string>,
    points: int)

  /** One entry of the grading response. */
  datatype QuestionResult = QuestionResult(questionId: nat, correct: bool, correctAnswer: string)

  /** The grading response. */
  datatype Graded = Graded(
    score: int,
    totalPoints: int,
    percentage: real,
    passed: bool,
    results: seq<QuestionResult>)

  /** A `user_test_results` row. */
  datatype TestResult = TestResult(
    user: UserId,
    course: CourseId,
    score: int,
    totalPoints: int,
    percentage: real)

  /** The `requirement_type` text of the trophies a perfect test grants. */
  const PerfectTestsType: string := "perfect_tests"

  /** A `trophies` row; `requirement_type` is free text and, like `requirement_value`, may be NULL. */
  datatype Trophy = Trophy(id: TrophyId, requirementType: Option<string>, requirementValue: Option<int>)

  /** A trophy in the listing; `earned` is present only for a signed-in caller. */
  datatype TrophyView = TrophyView(trophy: Trophy, earned: Option<bool>)

  /** The mutable columns of a `user_progress` row, keyed by (user, lesson). */
  datatype ProgressRow = ProgressRow(courseId: CourseId, completed: bool)

  /** The error responses of the modelled handlers. */
  datatype Error =
    | Unauthenticated    // 401: no user in the session
    | WordIdRequired     // 400: `word_id` absent or falsy
    | LessonNotFound     // 404
    | UserNotFound       // the stats handler has no user row to read

  datatype Result<+T> = Ok(value: T) | Err(error: Error)
}
