/**
 * The relational store and the handlers that change it: test submission,
 * learning a word and completing a lesson, together with the read-only views
 * (question listing, lesson and overall progress, trophy listing).
 *
 * Each UNIQUE key of the schema becomes the key of a map or the element of a
 * set, so an insert-or-replace is a map update and an insert-or-ignore a set union.
 */
module Store {
  import opened Schema
  import opened Percentages
  import opened Grading

  // ---------------------------------------------------------------------------
  // Learned words: `user_learned_words`, UNIQUE(user_id, word_id)
  // ---------------------------------------------------------------------------

  /** The learned-word records of one user. */
  function LearnedBy(learned: map<(UserId, WordId), int>, u: UserId): set<(UserId, WordId)>
  {
    set k | k in learned && k.0 == u
  }

  /** Upserting a record adds one to the user's count exactly when the word was not yet recorded. */
  lemma LearnedCountAfterUpsert(learned: map<(UserId, WordId), int>, u: UserId, w: WordId, p: int)
    ensures |LearnedBy(learned[(u, w) := p], u)| == |LearnedBy(learned, u)| + (if (u, w) in learned then 0 else 1)
  {
    var before, after := LearnedBy(learned, u), LearnedBy(learned[(u, w) := p], u);
    assert after == before + {(u, w)};
    if (u, w) in learned {
      assert after == before;
    } else {
      assert (u, w) !in before;
    }
  }

  /** Another user's upsert does not change this user's records. */
  lemma LearnedByOthersUnchanged(learned: map<(UserId, WordId), int>, u: UserId, w: WordId, p: int, v: UserId)
    requires v != u
    ensures LearnedBy(learned[(u, w) := p], v) == LearnedBy(learned, v)
  {
  }

  // ---------------------------------------------------------------------------
  // Test results: `user_test_results`, append-only
  // ---------------------------------------------------------------------------

  predicate IsPassing(r: TestResult)
  {
    ReachesPassMark(r.percentage)
  }

  /** The number of passing results of user `u` for course `c`. */
  function PassCount(rs: seq<TestResult>, u: UserId, c: CourseId): nat
  {
    if rs == [] then 0
    else
      var last := rs[|rs| - 1];
      PassCount(rs[..|rs| - 1], u, c) + (if last.user == u && last.course == c && IsPassing(last) then 1 else 0)
  }

  lemma PassCountAppend(rs: seq<TestResult>, row: TestResult, u: UserId, c: CourseId)
    ensures PassCount(rs + [row], u, c)
         == PassCount(rs, u, c) + (if row.user == u && row.course == c && IsPassing(row) then 1 else 0)
  {
    assert (rs + [row])[..|rs|] == rs;
  }

  /** The courses user `u` has at least one passing result for. */
  function PassedCourses(rs: seq<TestResult>, u: UserId): set<CourseId>
  {
    set i | 0 <= i < |rs| && rs[i].user == u && IsPassing(rs[i]) :: rs[i].course
  }

  lemma PassedCoursesAppend(rs: seq<TestResult>, row: TestResult, u: UserId)
    ensures PassedCourses(rs + [row], u)
         == PassedCourses(rs, u) + (if row.user == u && IsPassing(row) then {row.course} else {})
  {
    var rs' := rs + [row];
    forall c | c in PassedCourses(rs', u)
      ensures c in PassedCourses(rs, u) + (if row.user == u && IsPassing(row) then {row.course} else {})
    {
      var i :| 0 <= i < |rs'| && rs'[i].user == u && IsPassing(rs'[i]) && rs'[i].course == c;
      if i < |rs| {
        assert rs'[i] == rs[i];
      }
    }
    forall c | c in PassedCourses(rs, u) ensures c in PassedCourses(rs', u) {
      var i :| 0 <= i < |rs| && rs[i].user == u && IsPassing(rs[i]) && rs[i].course == c;
      assert rs'[i] == rs[i];
    }
    if row.user == u && IsPassing(row) {
      assert rs'[|rs|] == row;
    }
  }

  /** No passing result for a course means the course is not among the passed ones, and conversely. */
  lemma {:induction false} PassCountZeroIff(rs: seq<TestResult>, u: UserId, c: CourseId)
    ensures PassCount(rs, u, c) == 0 <==> c !in PassedCourses(rs, u)
  {
    if rs != [] {
      var init, last := rs[..|rs| - 1], rs[|rs| - 1];
      assert rs == init + [last];
      PassCountZeroIff(init, u, c);
      PassedCoursesAppend(init, last, u);
    }
  }

  /**
   * A new result adds a course to the passed set exactly when it passes and is the
   * user's first passing result for that course: the condition under which the
   * handler raises `total_courses_completed`.
   */
  lemma PassedCoursesGrowth(rs: seq<TestResult>, row: TestResult, u: UserId)
    ensures |PassedCourses(rs + [row], u)|
         == |PassedCourses(rs, u)| + (if row.user == u && IsPassing(row) && PassCount(rs, u, row.course) == 0 then 1 else 0)
  {
    PassedCoursesAppend(rs, row, u);
    PassCountZeroIff(rs, u, row.course);
    var before := PassedCourses(rs, u);
    if row.user == u && IsPassing(row) {
      if row.course in before {
        assert before + {row.course} == before;
      } else {
        assert |before + {row.course}| == |before| + 1;
      }
    } else {
      assert PassedCourses(rs + [row], u) == before;
    }
  }

  // ---------------------------------------------------------------------------
  // Trophies: `user_trophies`, UNIQUE(user_id, trophy_id)
  // ---------------------------------------------------------------------------

  /** A trophy the perfect-score insert selects: `requirement_type = 'perfect_tests'`, never a NULL type. */
  predicate ForPerfectTests(t: Trophy)
  {
    t.requirementType == Some(PerfectTestsType)
  }

  /** The grants a perfect result inserts: every `perfect_tests` trophy, whatever its threshold. */
  function PerfectGrants(trophies: seq<Trophy>, u: UserId): (r: set<(UserId, TrophyId)>)
    ensures forall t :: t in trophies && ForPerfectTests(t) ==> (u, t.id) in r
    ensures forall g :: g in r ==> g.0 == u && exists t :: t in trophies && ForPerfectTests(t) && t.id == g.1
  {
    set i | 0 <= i < |trophies| && ForPerfectTests(trophies[i]) :: (u, trophies[i].id)
  }

  /** The trophy listing: each trophy, with an `earned` flag for a signed-in caller. */
  function TrophyListing(trophies: seq<Trophy>, grants: set<(UserId, TrophyId)>, session: Option<UserId>): (r: seq<TrophyView>)
    ensures |r| == |trophies|
    ensures forall i :: 0 <= i < |r| ==> r[i].trophy == trophies[i]
    ensures session.None? ==> forall i :: 0 <= i < |r| ==> r[i].earned == None
    ensures session.Some? ==> forall i :: 0 <= i < |r| ==> r[i].earned == Some((session.value, trophies[i].id) in grants)
  {
    seq(|trophies|, i requires 0 <= i < |trophies| =>
      TrophyView(trophies[i], if session.Some? then Some((session.value, trophies[i].id) in grants) else None))
  }

  /**
   * After the grants of a perfect result, the listing shows every `perfect_tests`
   * trophy as earned for that user and no other user's flags change.
   */
  lemma ListingAfterPerfectGrants(trophies: seq<Trophy>, grants: set<(UserId, TrophyId)>, u: UserId, v: UserId)
    ensures var l := TrophyListing(trophies, grants + PerfectGrants(trophies, u), Some(u));
      |l| == |trophies| &&
      forall i :: 0 <= i < |trophies| && ForPerfectTests(trophies[i]) ==> l[i].earned == Some(true)
    ensures v != u ==>
      TrophyListing(trophies, grants + PerfectGrants(trophies, u), Some(v)) == TrophyListing(trophies, grants, Some(v))
  {
    var l := TrophyListing(trophies, grants + PerfectGrants(trophies, u), Some(u));
    forall i | 0 <= i < |trophies| && ForPerfectTests(trophies[i])
      ensures l[i].earned == Some(true)
    {
      assert (u, trophies[i].id) in PerfectGrants(trophies, u);
    }
  }

  // ---------------------------------------------------------------------------
  // Lesson progress: `user_progress`, UNIQUE(user_id, lesson_id)
  // ---------------------------------------------------------------------------

  /** The completed-lesson rows of user `u` in course `c`. */
  function CompletedLessons(progress: map<(UserId, LessonId), ProgressRow>, u: UserId, c: CourseId): set<(UserId, LessonId)>
  {
    set k | k in progress && k.0 == u && progress[k].courseId == c && progress[k].completed
  }

  /** Completing a lesson adds one to its course's count exactly when it was not completed before. */
  lemma CompletedLessonsAfterUpsert(progress: map<(UserId, LessonId), ProgressRow>, u: UserId, l: LessonId, c: CourseId)
    ensures |CompletedLessons(progress[(u, l) := ProgressRow(c, true)], u, c)|
         == |CompletedLessons(progress, u, c)| + (if (u, l) in CompletedLessons(progress, u, c) then 0 else 1)
  {
    var before, after := CompletedLessons(progress, u, c), CompletedLessons(progress[(u, l) := ProgressRow(c, true)], u, c);
    assert after == before + {(u, l)};
  }

  /**
   * The lesson progress of course `c` in percent, as the course listing shows it for
   * each of its rows: 0 when the course declares no lessons.
   */
  function CourseProgress(progress: map<(UserId, LessonId), ProgressRow>, courses: map<CourseId, Course>, u: UserId, c: CourseId): (r: real)
    requires c in courses
    ensures courses[c].totalLessons <= 0 ==> r == 0.0
    ensures |CompletedLessons(progress, u, c)| <= courses[c].totalLessons ==> 0.0 <= r <= 100.0
    ensures |CompletedLessons(progress, u, c)| == courses[c].totalLessons > 0 ==> r == 100.0
    ensures courses[c].totalLessons > 0 ==>
      r * (courses[c].totalLessons as real) == 100.0 * (|CompletedLessons(progress, u, c)| as real)
  {
    var done, total := |CompletedLessons(progress, u, c)|, courses[c].totalLessons;
    if done <= total then PercentBounds(done, total); Percent(done, total)
    else Percent(done, total)
  }

  /** The share of all courses the user has completed, in percent; the handler rounds it. */
  function OverallProgress(users: map<UserId, User>, courses: map<CourseId, Course>, session: Option<UserId>): (r: Result<real>)
    ensures session.None? ==> r == Err(Unauthenticated)
    ensures session.Some? && session.value !in users ==> r == Err(UserNotFound)
    ensures session.Some? && session.value in users && |courses| == 0 ==> r == Ok(0.0)
    ensures session.Some? && session.value in users && 0 <= users[session.value].totalCoursesCompleted <= |courses|
      ==> r.Ok? && 0.0 <= r.value <= 100.0
    ensures session.Some? && session.value in users && |courses| > 0 ==>
      r.Ok? && r.value * (|courses| as real) == 100.0 * (users[session.value].totalCoursesCompleted as real)
  {
    if session.None? then Err(Unauthenticated)
    else if session.value !in users then Err(UserNotFound)
    else
      var done := users[session.value].totalCoursesCompleted;
      if 0 <= done <= |courses| then PercentBounds(done, |courses|); Ok(Percent(done, |courses|))
      else Ok(Percent(done, |courses|))
  }

  // ---------------------------------------------------------------------------
  // The store
  // ---------------------------------------------------------------------------

  class Store {
    var users: map<UserId, User>
    var courses: map<CourseId, Course>
    /** `lessons`: the course each lesson belongs to. */
    var lessons: map<LessonId, CourseId>
    /** `course_tests`, in table order. */
    var questions: seq<Question>
    /** `trophies`, in table order. */
    var trophies: seq<Trophy>
    var progress: map<(UserId, LessonId), ProgressRow>
    /** `user_learned_words`: the proficiency of each (user, word) record. */
    var learned: map<(UserId, WordId), int>
    var results: seq<TestResult>
    var grants: set<(UserId, TrophyId)>

    /** A store holding a catalog and no user activity yet. */
    constructor (users: map<UserId, User>, courses: map<CourseId, Course>, lessons: map<LessonId, CourseId>,
                 questions: seq<Question>, trophies: seq<Trophy>)
      ensures this.users == users && this.courses == courses && this.lessons == lessons
      ensures this.questions == questions && this.trophies == trophies
      ensures progress == map[] && learned == map[] && results == [] && grants == {}
    {
      this.users, this.courses, this.lessons := users, courses, lessons;
      this.questions, this.trophies := questions, trophies;
      progress, learned, results, grants := map[], map[], [], {};
    }

    /** The questions of a course as the test page receives them: without their correct answers. */
    method CourseTest(course: CourseId) returns (listing: seq<PublicQuestion>)
      ensures var qs := CourseQuestions(questions, course);
        |listing| == |qs| && forall i :: 0 <= i < |qs| ==> listing[i] == Hide(qs[i])
    {
      var qs := CourseQuestions(questions, course);
      listing := [];
      for i := 0 to |qs|
        invariant |listing| == i
        invariant forall j :: 0 <= j < i ==> listing[j] == Hide(qs[j])
      {
        listing := listing + [Hide(qs[i])];
      }
    }

    /** Marks a lesson completed for the signed-in user. */
    method CompleteLesson(session: Option<UserId>, lesson: LessonId) returns (r: Result<()>)
      modifies this`progress
      ensures session.None? ==> r == Err(Unauthenticated) && progress == old(progress)
      ensures session.Some? && lesson !in lessons ==> r == Err(LessonNotFound) && progress == old(progress)
      ensures session.Some? && lesson in lessons ==>
        var u, c := session.value, lessons[lesson];
        && r == Ok(())
        && progress == old(progress)[(u, lesson) := ProgressRow(c, true)]
        && |CompletedLessons(progress, u, c)|
           == |CompletedLessons(old(progress), u, c)| + (if (u, lesson) in CompletedLessons(old(progress), u, c) then 0 else 1)
    {
      if session.None? {
        return Err(Unauthenticated);
      }
      if lesson !in lessons {
        return Err(LessonNotFound);
      }
      var u, c := session.value, lessons[lesson];
      CompletedLessonsAfterUpsert(progress, u, lesson, c);
      progress := progress[(u, lesson) := ProgressRow(c, true)];
      r := Ok(());
    }

    /** Records a word as learned by the signed-in user and recounts the user's learned words. */
    method LearnWord(session: Option<UserId>, word: Option<WordId>) returns (r: Result<()>)
      modifies this`learned, this`users
      ensures session.None? ==> r == Err(Unauthenticated) && learned == old(learned) && users == old(users)
      ensures session.Some? && (word.None? || word.value == 0) ==>
        r == Err(WordIdRequired) && learned == old(learned) && users == old(users)
      ensures session.Some? && word.Some? && word.value != 0 ==>
        var u, w := session.value, word.value;
        && r == Ok(())
        && learned == old(learned)[(u, w) := 1]
        && (u in old(users) ==> users == old(users)[u := old(users)[u].(totalWordsLearned := |LearnedBy(learned, u)|)])
        && (u !in old(users) ==> users == old(users))
        && |LearnedBy(learned, u)| == |LearnedBy(old(learned), u)| + (if (u, w) in old(learned) then 0 else 1)
    {
      if session.None? {
        return Err(Unauthenticated);
      }
      if word.None? || word.value == 0 {
        return Err(WordIdRequired);
      }
      var u, w := session.value, word.value;
      LearnedCountAfterUpsert(learned, u, w, 1);
      learned := learned[(u, w) := 1];
      if u in users {
        users := users[u := users[u].(totalWordsLearned := |LearnedBy(learned, u)|)];
      }
      r := Ok(());
    }

    /**
     * The store updates of a graded submission, given its score, total and
     * percentage: appends the result row, grants every `perfect_tests` trophy by
     * insert-or-ignore on a perfect result and counts the course as completed on
     * the user's first passing result for it. Nothing else changes.
     */
    method RecordResult(u: UserId, course: CourseId, score: int, total: int, percentage: real)
      modifies this`results, this`grants, this`users
      ensures results == old(results) + [TestResult(u, course, score, total, percentage)]
      ensures grants == if IsFullMark(percentage) then old(grants) + PerfectGrants(trophies, u) else old(grants)
      ensures users == if ReachesPassMark(percentage) && u in old(users) && PassCount(old(results), u, course) == 0
                       then old(users)[u := old(users)[u].(totalCoursesCompleted := old(users)[u].totalCoursesCompleted + 1)]
                       else old(users)
      ensures u in old(users) && old(users)[u].totalCoursesCompleted == |PassedCourses(old(results), u)| ==>
                users[u].totalCoursesCompleted == |PassedCourses(results, u)|
    {
      var row := TestResult(u, course, score, total, percentage);
      PassCountAppend(results, row, u, course);
      PassedCoursesGrowth(results, row, u);
      results := results + [row];

      if IsFullMark(percentage) {
        grants := grants + PerfectGrants(trophies, u);
      }
      if ReachesPassMark(percentage) {
        // raised unless the user now has more than one passing result for the course
        if u in users && !(PassCount(results, u, course) > 1) {
          users := users[u := users[u].(totalCoursesCompleted := users[u].totalCoursesCompleted + 1)];
        }
      }
    }

    /** Grades a submission for the signed-in user, records it and returns the grading response. */
    method SubmitTest(session: Option<UserId>, course: CourseId, submitted: Option<map<string, string>>)
      returns (r: Result<Graded>)
      modifies this`results, this`grants, this`users
      ensures session.None? ==>
        r == Err(Unauthenticated) && results == old(results) && grants == old(grants) && users == old(users)
      ensures session.Some? ==>
        var answers := if submitted.Some? then submitted.value else map[];
        var qs := CourseQuestions(old(questions), course);
        && r.Ok?
        && r.value.score == Score(answers, qs)
        && r.value.totalPoints == TotalPoints(qs)
        && r.value.percentage == Percent(r.value.score, r.value.totalPoints)
        && r.value.passed == ReachesPassMark(r.value.percentage)
        && |r.value.results| == |qs|
        && (forall i :: 0 <= i < |qs| ==>
              r.value.results[i] == QuestionResult(qs[i].id, IsCorrect(answers, qs[i]), qs[i].correctAnswer))
      ensures session.Some? && r.Ok? ==>
        var u, g := session.value, r.value;
        && results == old(results) + [TestResult(u, course, g.score, g.totalPoints, g.percentage)]
        && grants == (if IsFullMark(g.percentage) then old(grants) + PerfectGrants(old(trophies), u) else old(grants))
        && users == (if g.passed && u in old(users) && PassCount(old(results), u, course) == 0
                     then old(users)[u := old(users)[u].(totalCoursesCompleted := old(users)[u].totalCoursesCompleted + 1)]
                     else old(users))
      ensures session.Some? && session.value in old(users)
              && old(users)[session.value].totalCoursesCompleted == |PassedCourses(old(results), session.value)| ==>
                users[session.value].totalCoursesCompleted == |PassedCourses(results, session.value)|
    {
      if session.None? {
        return Err(Unauthenticated);
      }
      var u := session.value;
      var answers := if submitted.Some? then submitted.value else map[];
      var qs := CourseQuestions(questions, course);
      var score, total, graded := GradeAll(Verdict(answers), qs);
      var percentage := Percent(score, total);
      RecordResult(u, course, score, total, percentage);
      r := Ok(Graded(score, total, percentage, ReachesPassMark(percentage), graded));
    }
  }
}
