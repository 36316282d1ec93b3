/**
 * Grading of a course test: which questions belong to the course, how each one
 * is judged, and the score and total the handler accumulates.
 */
module Grading {
  import opened Schema
  import Normalize

  /** The questions of one course, in the order of the `course_tests` table. */
  function CourseQuestions(qs: seq<Question>, course: CourseId): (r: seq<Question>)
    ensures |r| <= |qs|
    ensures forall q :: q in r <==> q in qs && q.courseId == course
  {
    if qs == [] then []
    else
      var last := qs[|qs| - 1];
      CourseQuestions(qs[..|qs| - 1], course) + (if last.courseId == course then [last] else [])
  }

  /** The selection keeps every question of the course as often as it is stored, and no other question. */
  lemma {:induction false} CourseQuestionsCount(qs: seq<Question>, course: CourseId)
    ensures forall q :: multiset(CourseQuestions(qs, course))[q] == if q.courseId == course then multiset(qs)[q] else 0
  {
    if qs != [] {
      var init, last := qs[..|qs| - 1], qs[|qs| - 1];
      CourseQuestionsCount(init, course);
      assert qs == init + [last];
    }
  }

  /** The decimal digit character of `d`. */
  function DigitChar(d: nat): char
    requires d < 10
  {
    ('0' as int + d) as char
  }

  /** Python's `str(n)` for a non-negative integer. */
  function DecimalString(n: nat): (s: string)
    ensures |s| >= 1
    ensures forall i :: 0 <= i < |s| ==> '0' <= s[i] <= '9'
    ensures s[0] == '0' ==> n == 0 && s == "0"
  {
    if n < 10 then [DigitChar(n)] else DecimalString(n / 10) + [DigitChar(n % 10)]
  }

  /** The value of a string of decimal digits. */
  function DecimalValue(s: string): nat
    requires forall i :: 0 <= i < |s| ==> '0' <= s[i] <= '9'
  {
    if s == [] then 0
    else DecimalValue(s[..|s| - 1]) * 10 + (s[|s| - 1] as int - '0' as int)
  }

  /** Reading the decimal form of a number of two or more digits: its leading digits, then its last. */
  lemma DecimalValueStep(n: nat)
    requires n >= 10
    ensures DecimalValue(DecimalString(n)) == DecimalValue(DecimalString(n / 10)) * 10 + n % 10
  {
    var s := DecimalString(n);
    assert s[..|s| - 1] == DecimalString(n / 10);
  }

  /** Reading back the decimal form of an identifier gives the identifier. */
  lemma {:induction false} DecimalRoundTrip(n: nat)
    ensures DecimalValue(DecimalString(n)) == n
  {
    if n >= 10 {
      DecimalRoundTrip(n / 10);
      DecimalValueStep(n);
    } else {
      assert DecimalString(n)[..0] == [];
    }
  }

  /** Distinct question identifiers look up distinct keys of the answers map. */
  lemma AnswerKeysDistinct(a: nat, b: nat)
    requires a != b
    ensures DecimalString(a) != DecimalString(b)
  {
    DecimalRoundTrip(a);
    DecimalRoundTrip(b);
  }

  /** The key under which the client submits the answer to `q`: its id as a string. */
  function AnswerKey(q: Question): string
  {
    DecimalString(q.id)
  }

  /** The submitted answer to `q`, or the empty string when there is none. */
  function SubmittedAnswer(answers: map<string, string>, q: Question): string
  {
    if AnswerKey(q) in answers then answers[AnswerKey(q)] else ""
  }

  predicate IsCorrect(answers: map<string, string>, q: Question)
  {
    Normalize.Matches(SubmittedAnswer(answers, q), q.correctAnswer)
  }

  /** An unanswered question is judged as if the empty string had been submitted. */
  lemma UnansweredQuestion(answers: map<string, string>, q: Question)
    requires AnswerKey(q) !in answers
    ensures IsCorrect(answers, q) <==> Normalize.Normalized(q.correctAnswer) == []
  {
    assert Normalize.Normalized("") == [];
  }

  /** The sum of the points of all questions. */
  function TotalPoints(qs: seq<Question>): int
  {
    if qs == [] then 0 else TotalPoints(qs[..|qs| - 1]) + qs[|qs| - 1].points
  }

  /** The sum of the points of the questions that `ok` accepts, accumulated in order. */
  function PointsWhere(ok: Question -> bool, qs: seq<Question>): int
  {
    if qs == [] then 0
    else
      var last := qs[|qs| - 1];
      PointsWhere(ok, qs[..|qs| - 1]) + (if ok(last) then last.points else 0)
  }

  /** The questions that `ok` accepts, in order. */
  function Accepted(ok: Question -> bool, qs: seq<Question>): (r: seq<Question>)
    ensures |r| <= |qs|
    ensures forall q :: q in r <==> q in qs && ok(q)
  {
    if qs == [] then []
    else
      var last := qs[|qs| - 1];
      Accepted(ok, qs[..|qs| - 1]) + (if ok(last) then [last] else [])
  }

  /** The accepted questions are the stored ones `ok` accepts, each as often as it is stored. */
  lemma {:induction false} AcceptedCount(ok: Question -> bool, qs: seq<Question>)
    ensures forall q :: multiset(Accepted(ok, qs))[q] == if ok(q) then multiset(qs)[q] else 0
  {
    if qs != [] {
      var init, last := qs[..|qs| - 1], qs[|qs| - 1];
      AcceptedCount(ok, init);
      assert qs == init + [last];
    }
  }

  /** The handler's verdict on each question for the given answers. */
  function Verdict(answers: map<string, string>): Question -> bool
  {
    q => IsCorrect(answers, q)
  }

  /** The score of a submission: the points of its correctly answered questions. */
  function Score(answers: map<string, string>, qs: seq<Question>): int
  {
    PointsWhere(Verdict(answers), qs)
  }

  lemma TotalPointsAppend(qs: seq<Question>, q: Question)
    ensures TotalPoints(qs + [q]) == TotalPoints(qs) + q.points
  {
    assert (qs + [q])[..|qs|] == qs;
  }

  /** One more question adds its points to the total. */
  lemma TotalPointsStep(qs: seq<Question>, i: nat)
    requires i < |qs|
    ensures TotalPoints(qs[..i + 1]) == TotalPoints(qs[..i]) + qs[i].points
  {
    assert qs[..i + 1][..i] == qs[..i];
  }

  /** One more question adds its points to the score when it is accepted. */
  lemma PointsWhereStep(ok: Question -> bool, qs: seq<Question>, i: nat)
    requires i < |qs|
    ensures PointsWhere(ok, qs[..i + 1]) == PointsWhere(ok, qs[..i]) + (if ok(qs[i]) then qs[i].points else 0)
  {
    assert qs[..i + 1][..i] == qs[..i];
  }

  /** The score is exactly the total of the accepted questions, and nothing else. */
  lemma {:induction false} ScoreIsPointsOfCorrect(ok: Question -> bool, qs: seq<Question>)
    ensures PointsWhere(ok, qs) == TotalPoints(Accepted(ok, qs))
  {
    if qs != [] {
      var init, last := qs[..|qs| - 1], qs[|qs| - 1];
      ScoreIsPointsOfCorrect(ok, init);
      if ok(last) {
        TotalPointsAppend(Accepted(ok, init), last);
      } else {
        assert Accepted(ok, qs) == Accepted(ok, init);
      }
    }
  }

  predicate NonNegativePoints(qs: seq<Question>)
  {
    forall i :: 0 <= i < |qs| ==> qs[i].points >= 0
  }

  predicate PositivePoints(qs: seq<Question>)
  {
    forall i :: 0 <= i < |qs| ==> qs[i].points > 0
  }

  /** With no negative point values the score lies between zero and the total. */
  lemma {:induction false} ScoreBounds(ok: Question -> bool, qs: seq<Question>)
    requires NonNegativePoints(qs)
    ensures 0 <= PointsWhere(ok, qs) <= TotalPoints(qs)
  {
    if qs != [] {
      ScoreBounds(ok, qs[..|qs| - 1]);
    }
  }

  /** With positive point values, full marks mean every question was accepted, and conversely. */
  lemma {:induction false} FullScoreIffAllCorrect(ok: Question -> bool, qs: seq<Question>)
    requires PositivePoints(qs)
    ensures PointsWhere(ok, qs) == TotalPoints(qs) <==> forall i :: 0 <= i < |qs| ==> ok(qs[i])
  {
    if qs != [] {
      var init, last := qs[..|qs| - 1], qs[|qs| - 1];
      FullScoreIffAllCorrect(ok, init);
      ScoreBounds(ok, init);
      if forall i :: 0 <= i < |qs| ==> ok(qs[i]) {
        assert forall i :: 0 <= i < |init| ==> ok(init[i]) by {
          forall i | 0 <= i < |init| ensures ok(init[i]) {
            assert init[i] == qs[i];
          }
        }
      } else if ok(last) {
        var k :| 0 <= k < |qs| && !ok(qs[k]);
        assert k < |init| && init[k] == qs[k];
      }
    }
  }

  /**
   * The grading loop: one pass over the course's questions that adds up the
   * total, adds the points of each question the verdict accepts to the score and
   * records one result per question. The handler passes `Verdict(answers)`.
   */
  method GradeAll(ok: Question -> bool, qs: seq<Question>)
    returns (score: int, total: int, results: seq<QuestionResult>)
    ensures score == PointsWhere(ok, qs)
    ensures total == TotalPoints(qs)
    ensures |results| == |qs|
    ensures forall i :: 0 <= i < |qs| ==> results[i] == QuestionResult(qs[i].id, ok(qs[i]), qs[i].correctAnswer)
  {
    score, total, results := 0, 0, [];
    for i := 0 to |qs|
      invariant score == PointsWhere(ok, qs[..i])
      invariant total == TotalPoints(qs[..i])
      invariant |results| == i
      invariant forall j :: 0 <= j < i ==> results[j] == QuestionResult(qs[j].id, ok(qs[j]), qs[j].correctAnswer)
    {
      var q := qs[i];
      TotalPointsStep(qs, i);
      PointsWhereStep(ok, qs, i);
      total := total + q.points;
      var isCorrect := ok(q);
      if isCorrect {
        score := score + q.points;
      }
      results := results + [QuestionResult(q.id, isCorrect, q.correctAnswer)];
    }
    assert qs[..|qs|] == qs;
  }

  /** The question as the listing shows it, without its correct answer. */
  function Hide(q: Question): PublicQuestion
  {
    PublicQuestion(q.id, q.courseId, q.prompt, q.questionType, q.options, q.points)
  }

  /** A listed question with its correct answer put back. */
  function Restore(p: PublicQuestion, answer: string): Question
  {
    Question(p.id, p.courseId, p.prompt, p.questionType, answer, p.options, p.points)
  }

  /**
   * The listing drops the correct answer and nothing else: putting the answer back
   * gives the stored question, and two questions list the same exactly when they
   * differ at most in their answers.
   */
  lemma HideDropsOnlyAnswer(q: Question, q': Question)
    ensures Restore(Hide(q), q.correctAnswer) == q
    ensures Hide(q) == Hide(q') <==> q.(correctAnswer := q'.correctAnswer) == q'
  {
  }
}
