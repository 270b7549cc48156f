// The quiz tables: quizzes, their ordered questions and options, and attempts graded
// against each question's single stored answer (server/models/quizModel.js).
// Only the later, effective definitions of addQuestion, updateQuestion and
// deleteQuestion are modelled: in a JavaScript object literal the last key wins.

module QuizModel {
  import opened Wrappers
  import opened Ordering
  import Percent

  /** A JSON scalar, as stored in `correct_answer` and as sent in an answer. */
  datatype Value = Null | Num(n: int) | Str(s: string) | Bool(b: bool)

  datatype Quiz = Quiz(
    id: nat, lessonId: nat, title: string, description: Option<string>, timeLimit: Option<int>,
    passingScore: int, isPublished: bool, publishedAt: Option<int>, updatedAt: int)

  /** The fields `update` reads; `None` stands for a value that is null or undefined. */
  datatype QuizChanges = QuizChanges(
    title: Option<string>, description: Option<string>, timeLimit: Option<int>,
    passingScore: Option<int>, isPublished: Option<bool>)

  datatype QuestionData = QuestionData(text: string, questionType: string, points: int, correctAnswer: Value)
  datatype QuestionChanges = QuestionChanges(text: Option<string>, questionType: Option<string>, points: Option<int>)
  datatype OptionData = OptionData(text: string, isCorrect: bool)
  datatype OptionChanges = OptionChanges(text: Option<string>, isCorrect: Option<bool>)

  type QuestionRow = Row<QuestionData>
  type OptionRow = Row<OptionData>

  datatype Answer = Answer(questionId: int, answer: Value)

  datatype GradedAnswer = GradedAnswer(
    questionId: nat, userAnswer: Value, correctAnswer: Value,
    isCorrect: bool, pointsEarned: int, pointsPossible: int)

  /** A stored `quiz_attempts` row; `score` holds the rounded percentage. */
  datatype Attempt = Attempt(
    quizId: nat, userId: nat, score: int, totalPoints: int, passed: bool,
    answers: seq<GradedAnswer>, completedAt: int, timeTaken: Option<int>)

  /** What `submitAttempt` returns: the stored row plus the grading details. */
  datatype Submission = Submission(
    attempt: Attempt, gradedAnswers: seq<GradedAnswer>, totalScore: int, totalPoints: int, percentage: int)

  // ---------------------------------------------------------------------------
  // COALESCE updates

  /** `COALESCE($k, column)`: the given value, or the stored one when none is given. */
  function Coalesce<V>(given: Option<V>, stored: V): V
  {
    if given.Some? then given.value else stored
  }

  /** `COALESCE($k, column)` on a nullable column. */
  function CoalesceNullable<V>(given: Option<V>, stored: Option<V>): Option<V>
  {
    if given.Some? then given else stored
  }

  /** The quiz row after `update`: each given field replaces the stored one, and updated_at is refreshed. */
  function MergedQuiz(q: Quiz, c: QuizChanges, now: int): (r: Quiz)
    ensures r.id == q.id && r.lessonId == q.lessonId && r.publishedAt == q.publishedAt && r.updatedAt == now
    ensures r.title == (if c.title.Some? then c.title.value else q.title)
    ensures r.description == (if c.description.Some? then c.description else q.description)
    ensures r.timeLimit == (if c.timeLimit.Some? then c.timeLimit else q.timeLimit)
    ensures r.passingScore == (if c.passingScore.Some? then c.passingScore.value else q.passingScore)
    ensures r.isPublished == (if c.isPublished.Some? then c.isPublished.value else q.isPublished)
  {
    q.(title := Coalesce(c.title, q.title),
       description := CoalesceNullable(c.description, q.description),
       timeLimit := CoalesceNullable(c.timeLimit, q.timeLimit),
       passingScore := Coalesce(c.passingScore, q.passingScore),
       isPublished := Coalesce(c.isPublished, q.isPublished),
       updatedAt := now)
  }

  const NoQuizChanges := QuizChanges(None, None, None, None, None)

  /** An update with nothing given changes only updated_at. */
  lemma EmptyQuizUpdate(q: Quiz, now: int)
    ensures MergedQuiz(q, NoQuizChanges, now) == q.(updatedAt := now)
  {
  }

  /** Applying the same update twice is the same as applying it once. */
  lemma QuizUpdateIdempotent(q: Quiz, c: QuizChanges, now: int)
    ensures MergedQuiz(MergedQuiz(q, c, now), c, now) == MergedQuiz(q, c, now)
  {
  }

  /** A later update overrides an earlier one field by field. */
  lemma QuizUpdatesCompose(q: Quiz, c1: QuizChanges, c2: QuizChanges, t1: int, t2: int)
    ensures MergedQuiz(MergedQuiz(q, c1, t1), c2, t2) ==
      MergedQuiz(q, QuizChanges(
        if c2.title.Some? then c2.title else c1.title,
        if c2.description.Some? then c2.description else c1.description,
        if c2.timeLimit.Some? then c2.timeLimit else c1.timeLimit,
        if c2.passingScore.Some? then c2.passingScore else c1.passingScore,
        if c2.isPublished.Some? then c2.isPublished else c1.isPublished), t2)
  {
  }

  function MergedQuestion(d: QuestionData, c: QuestionChanges): (r: QuestionData)
    ensures r.correctAnswer == d.correctAnswer
    ensures c.text.None? && c.questionType.None? && c.points.None? ==> r == d
    ensures c.points.Some? ==> r.points == c.points.value
  {
    d.(text := Coalesce(c.text, d.text), questionType := Coalesce(c.questionType, d.questionType),
       points := Coalesce(c.points, d.points))
  }

  function MergedOption(d: OptionData, c: OptionChanges): (r: OptionData)
    ensures c.text.None? && c.isCorrect.None? ==> r == d
    ensures c.isCorrect.Some? ==> r.isCorrect == c.isCorrect.value
  {
    d.(text := Coalesce(c.text, d.text), isCorrect := Coalesce(c.isCorrect, d.isCorrect))
  }

  /** The rows after `UPDATE ... SET data = merge(data) WHERE id = $1`: positions do not move. */
  function UpdatedRows<T>(rows: seq<Row<T>>, id: nat, f: T -> T): (r: seq<Row<T>>)
    ensures |r| == |rows|
    ensures forall i :: 0 <= i < |r| ==> r[i].id == rows[i].id && r[i].parent == rows[i].parent && r[i].order == rows[i].order
  {
    seq(|rows|, i requires 0 <= i < |rows| => if rows[i].id == id then rows[i].(data := f(rows[i].data)) else rows[i])
  }

  // ---------------------------------------------------------------------------
  // Grading (submitAttempt)

  /** `answers.find(a => a.question_id === id)`: the first answer to the question, if any. */
  function FirstAnswer(answers: seq<Answer>, id: int): (r: Option<Answer>)
    ensures r.Some? ==> r.value in answers && r.value.questionId == id
    ensures r.None? <==> forall a :: a in answers ==> a.questionId != id
  {
    if answers == [] then None
    else if answers[0].questionId == id then Some(answers[0])
    else FirstAnswer(answers[1..], id)
  }

  /** The answer found is the earliest one to that question. */
  lemma {:induction false} FirstAnswerIsEarliest(answers: seq<Answer>, id: int)
    requires FirstAnswer(answers, id).Some?
    ensures exists i :: (0 <= i < |answers| && answers[i] == FirstAnswer(answers, id).value &&
      forall j :: 0 <= j < i ==> answers[j].questionId != id)
  {
    if answers[0].questionId != id {
      FirstAnswerIsEarliest(answers[1..], id);
      var i :| 0 <= i < |answers[1..]| && answers[1..][i] == FirstAnswer(answers, id).value &&
        forall j :: 0 <= j < i ==> answers[1..][j].questionId != id;
      assert answers[i + 1] == FirstAnswer(answers, id).value;
      forall j | 0 <= j < i + 1
        ensures answers[j].questionId != id
      {
        if j > 0 { assert answers[j] == answers[1..][j - 1]; }
      }
    }
  }

  /** Answers after the first one to a question are never consulted. */
  lemma {:induction false} FirstAnswerIgnoresLater(answers: seq<Answer>, later: seq<Answer>, id: int)
    requires FirstAnswer(answers, id).Some?
    ensures FirstAnswer(answers + later, id) == FirstAnswer(answers, id)
  {
    if answers[0].questionId != id {
      assert (answers + later)[1..] == answers[1..] + later;
      FirstAnswerIgnoresLater(answers[1..], later, id);
    }
  }

  /** The graded entry of one question: strict equality with correct_answer, all or nothing. */
  function Grade(q: QuestionRow, answers: seq<Answer>): (g: GradedAnswer)
    ensures g.questionId == q.id && g.correctAnswer == q.data.correctAnswer && g.pointsPossible == q.data.points
    ensures g.pointsEarned == (if g.isCorrect then q.data.points else 0)
  {
    match FirstAnswer(answers, q.id)
    case None => GradedAnswer(q.id, Null, q.data.correctAnswer, false, 0, q.data.points)
    case Some(a) =>
      var right := a.answer == q.data.correctAnswer;
      GradedAnswer(q.id, a.answer, q.data.correctAnswer, right, if right then q.data.points else 0, q.data.points)
  }

  /** A question nobody answered is recorded with a null answer, as wrong, for no points. */
  lemma UnansweredQuestion(q: QuestionRow, answers: seq<Answer>)
    requires forall a :: a in answers ==> a.questionId != q.id
    ensures Grade(q, answers).userAnswer == Null && !Grade(q, answers).isCorrect && Grade(q, answers).pointsEarned == 0
  {
  }

  /** A question is right iff an answer to it exists and the first such answer equals correct_answer. */
  lemma GradeCorrectIff(q: QuestionRow, answers: seq<Answer>)
    ensures Grade(q, answers).isCorrect <==>
      exists i :: (0 <= i < |answers| && answers[i].questionId == q.id && answers[i].answer == q.data.correctAnswer &&
        forall j :: 0 <= j < i ==> answers[j].questionId != q.id)
  {
    var f := FirstAnswer(answers, q.id);
    if f.Some? {
      FirstAnswerIsEarliest(answers, q.id);
      var i :| 0 <= i < |answers| && answers[i] == f.value && forall j :: 0 <= j < i ==> answers[j].questionId != q.id;
      forall k | 0 <= k < |answers| && answers[k].questionId == q.id && forall j :: 0 <= j < k ==> answers[j].questionId != q.id
        ensures k == i
      {
      }
    }
  }

  /** One graded entry per question of the quiz, in the order the questions are read. */
  function Graded(questions: seq<QuestionRow>, answers: seq<Answer>): (g: seq<GradedAnswer>)
    ensures |g| == |questions|
  {
    seq(|questions|, i requires 0 <= i < |questions| => Grade(questions[i], answers))
  }

  function PointsEarned(g: seq<GradedAnswer>): int
  {
    if g == [] then 0 else PointsEarned(g[..|g| - 1]) + g[|g| - 1].pointsEarned
  }

  function PointsPossible(g: seq<GradedAnswer>): int
  {
    if g == [] then 0 else PointsPossible(g[..|g| - 1]) + g[|g| - 1].pointsPossible
  }

  /** The grading loop: totals accumulate over every question, answered or not. */
  method GradeAttempt(questions: seq<QuestionRow>, answers: seq<Answer>)
    returns (graded: seq<GradedAnswer>, totalScore: int, totalPoints: int)
    ensures graded == Graded(questions, answers)
    ensures totalScore == PointsEarned(graded) && totalPoints == PointsPossible(graded)
  {
    graded := [];
    totalScore, totalPoints := 0, 0;
    for i := 0 to |questions|
      invariant graded == Graded(questions[..i], answers)
      invariant totalScore == PointsEarned(graded) && totalPoints == PointsPossible(graded)
    {
      var question := questions[i];
      totalPoints := totalPoints + question.data.points;
      var userAnswer := FirstAnswer(answers, question.id);
      var entry;
      if userAnswer.Some? {
        var isCorrect := userAnswer.value.answer == question.data.correctAnswer;
        if isCorrect {
          totalScore := totalScore + question.data.points;
        }
        entry := GradedAnswer(question.id, userAnswer.value.answer, question.data.correctAnswer,
          isCorrect, if isCorrect then question.data.points else 0, question.data.points);
      } else {
        entry := GradedAnswer(question.id, Null, question.data.correctAnswer, false, 0, question.data.points);
      }
      assert entry == Grade(questions[..i + 1][i], answers);
      graded := graded + [entry];
      assert graded[..i] == Graded(questions[..i], answers);
    }
    assert questions[..|questions|] == questions;
  }

  /** With non-negative points, each entry earns between nothing and everything it offers. */
  lemma {:induction false} EarnedWithinPossible(g: seq<GradedAnswer>)
    requires forall i :: 0 <= i < |g| ==> 0 <= g[i].pointsEarned <= g[i].pointsPossible
    ensures 0 <= PointsEarned(g) <= PointsPossible(g)
  {
    if g != [] {
      EarnedWithinPossible(g[..|g| - 1]);
    }
  }

  /** Every question answered right earns every point. */
  lemma {:induction false} AllRightEarnsAll(g: seq<GradedAnswer>)
    requires forall i :: 0 <= i < |g| ==> g[i].pointsEarned == g[i].pointsPossible
    ensures PointsEarned(g) == PointsPossible(g)
  {
    if g != [] {
      AllRightEarnsAll(g[..|g| - 1]);
    }
  }

  /** Score within total: with non-negative points, 0 <= score <= total, whatever the answers. */
  lemma ScoreWithinTotal(questions: seq<QuestionRow>, answers: seq<Answer>)
    requires forall i :: 0 <= i < |questions| ==> questions[i].data.points >= 0
    ensures 0 <= PointsEarned(Graded(questions, answers)) <= PointsPossible(Graded(questions, answers))
  {
    EarnedWithinPossible(Graded(questions, answers));
  }

  /**
   * Repeats cannot double-count: once every question has an answer, further answers
   * (repeats included) change nothing in the grading.
   */
  lemma LaterAnswersIgnored(questions: seq<QuestionRow>, answers: seq<Answer>, later: seq<Answer>)
    requires forall i :: 0 <= i < |questions| ==> FirstAnswer(answers, questions[i].id).Some?
    ensures Graded(questions, answers + later) == Graded(questions, answers)
  {
    forall i | 0 <= i < |questions|
      ensures Grade(questions[i], answers + later) == Grade(questions[i], answers)
    {
      FirstAnswerIgnoresLater(answers, later, questions[i].id);
    }
  }

  /** `totalPoints > 0 ? Math.round(totalScore / totalPoints * 100) : 0`. */
  function Percentage(totalScore: int, totalPoints: int): (p: int)
    ensures totalPoints <= 0 ==> p == 0
    ensures totalPoints > 0 ==> Percent.IsRoundedPercent(totalScore, totalPoints, p)
    ensures 0 <= totalScore <= totalPoints ==> 0 <= p <= 100
    ensures 0 < totalPoints == totalScore ==> p == 100
  {
    if totalPoints > 0 then Percent.Rounded(totalScore, totalPoints) else 0
  }

  /** With non-negative points the stored percentage lies in 0..100, and a clean sheet scores 100. */
  lemma PercentageBounds(questions: seq<QuestionRow>, answers: seq<Answer>)
    requires forall i :: 0 <= i < |questions| ==> questions[i].data.points >= 0
    ensures var g := Graded(questions, answers);
      0 <= Percentage(PointsEarned(g), PointsPossible(g)) <= 100
    ensures var g := Graded(questions, answers);
      (forall i :: 0 <= i < |g| ==> g[i].isCorrect) && PointsPossible(g) > 0 ==>
        Percentage(PointsEarned(g), PointsPossible(g)) == 100
  {
    var g := Graded(questions, answers);
    ScoreWithinTotal(questions, answers);
    if forall i :: 0 <= i < |g| ==> g[i].isCorrect {
      AllRightEarnsAll(g);
    }
  }

  /** An attempt at a quiz without questions scores 0 and passes only a passing score of 0 or less. */
  lemma NoQuestionsScoresZero(answers: seq<Answer>, passingScore: int)
    ensures Graded([], answers) == [] && Percentage(PointsEarned([]), PointsPossible([])) == 0
    ensures (Percentage(PointsEarned([]), PointsPossible([])) >= passingScore) <==> passingScore <= 0
  {
  }

  // ---------------------------------------------------------------------------
  // The attempts table

  function AttemptsNotOf(attempts: seq<Attempt>, quizId: nat): seq<Attempt>
  {
    if attempts == [] then []
    else AttemptsNotOf(attempts[..|attempts| - 1], quizId) +
         (if attempts[|attempts| - 1].quizId == quizId then [] else [attempts[|attempts| - 1]])
  }

  /** `DELETE FROM quiz_attempts WHERE quiz_id = $1` removes exactly that quiz's attempts. */
  lemma {:induction false} AttemptsNotOfMembers(attempts: seq<Attempt>, quizId: nat)
    ensures forall a :: a in AttemptsNotOf(attempts, quizId) <==> a in attempts && a.quizId != quizId
  {
    if attempts != [] {
      var n := |attempts| - 1;
      AttemptsNotOfMembers(attempts[..n], quizId);
      assert attempts == attempts[..n] + [attempts[n]];
    }
  }

  /** The keys of some rows, in order (`SELECT id FROM ...`). */
  function Ids<T>(rows: seq<Row<T>>): (ids: seq<nat>)
    ensures |ids| == |rows| && forall i :: 0 <= i < |rows| ==> ids[i] == rows[i].id
  {
    seq(|rows|, i requires 0 <= i < |rows| => rows[i].id)
  }

  /** The table after `DELETE ... WHERE parent = $1` once for each of `parents`. */
  function WithoutParents<T>(rows: seq<Row<T>>, parents: seq<nat>): seq<Row<T>>
  {
    if parents == [] then rows
    else WithoutParent(WithoutParents(rows, parents[..|parents| - 1]), parents[|parents| - 1])
  }

  /** What survives: exactly the rows whose parent is none of `parents`. */
  lemma {:induction false} WithoutParentsMembers<T>(rows: seq<Row<T>>, parents: seq<nat>)
    ensures forall r :: r in WithoutParents(rows, parents) <==> r in rows && r.parent !in parents
  {
    if parents != [] {
      var n := |parents| - 1;
      WithoutParentsMembers(rows, parents[..n]);
      WithoutParentMembers(WithoutParents(rows, parents[..n]), parents[n]);
      assert parents == parents[..n] + [parents[n]];
    }
  }

  // ---------------------------------------------------------------------------
  // The store

  class QuizStore {
    var quizzes: map<nat, Quiz>
    var questions: seq<QuestionRow>
    var options: seq<OptionRow>
    var attempts: seq<Attempt>
    var nextQuestionId: nat
    var nextOptionId: nat

    /**
     * Keys are unique and below the next serial value, and the questions of every quiz
     * (the options of every question) hold the positions 1..k.
     */
    ghost predicate Valid()
      reads this
    {
      WellFormed(questions, 1, nextQuestionId) && WellFormed(options, 1, nextOptionId)
    }

    constructor ()
      ensures Valid()
      ensures quizzes == map[] && questions == [] && options == [] && attempts == []
    {
      quizzes, questions, options, attempts := map[], [], [], [];
      nextQuestionId, nextOptionId := 0, 0;
    }

    /** `update`: COALESCE merge; an unknown quiz gives no row and no change. */
    method Update(id: nat, changes: QuizChanges, now: int) returns (r: Option<Quiz>)
      requires Valid()
      modifies this
      ensures Valid()
      ensures id in old(quizzes) ==> r == Some(MergedQuiz(old(quizzes)[id], changes, now)) && quizzes == old(quizzes)[id := r.value]
      ensures id !in old(quizzes) ==> r == None && quizzes == old(quizzes)
      ensures questions == old(questions) && options == old(options) && attempts == old(attempts)
      ensures nextQuestionId == old(nextQuestionId) && nextOptionId == old(nextOptionId)
    {
      if id in quizzes {
        var q := MergedQuiz(quizzes[id], changes, now);
        quizzes := quizzes[id := q];
        r := Some(q);
      } else {
        r := None;
      }
    }

    /** `publish`: is_published true, published_at and updated_at set to now. */
    method Publish(id: nat, now: int) returns (r: Option<Quiz>)
      requires Valid()
      modifies this
      ensures Valid()
      ensures id in old(quizzes) ==>
        r == Some(old(quizzes)[id].(isPublished := true, publishedAt := Some(now), updatedAt := now)) &&
        quizzes == old(quizzes)[id := r.value]
      ensures id !in old(quizzes) ==> r == None && quizzes == old(quizzes)
      ensures questions == old(questions) && options == old(options) && attempts == old(attempts)
      ensures nextQuestionId == old(nextQuestionId) && nextOptionId == old(nextOptionId)
    {
      if id in quizzes {
        var q := quizzes[id].(isPublished := true, publishedAt := Some(now), updatedAt := now);
        quizzes := quizzes[id := q];
        r := Some(q);
      } else {
        r := None;
      }
    }

    /** `unpublish`: is_published false and updated_at set to now; published_at is kept. */
    method Unpublish(id: nat, now: int) returns (r: Option<Quiz>)
      requires Valid()
      modifies this
      ensures Valid()
      ensures id in old(quizzes) ==>
        r == Some(old(quizzes)[id].(isPublished := false, updatedAt := now)) && quizzes == old(quizzes)[id := r.value]
      ensures id !in old(quizzes) ==> r == None && quizzes == old(quizzes)
      ensures questions == old(questions) && options == old(options) && attempts == old(attempts)
      ensures nextQuestionId == old(nextQuestionId) && nextOptionId == old(nextOptionId)
    {
      if id in quizzes {
        var q := quizzes[id].(isPublished := false, updatedAt := now);
        quizzes := quizzes[id := q];
        r := Some(q);
      } else {
        r := None;
      }
    }

    /**
     * `delete`: the quiz's attempts, then the options of each of its questions, then its
     * questions, then the quiz itself. The cascade runs even when the quiz is missing.
     */
    method Delete(id: nat) returns (r: Option<Quiz>)
      requires Valid()
      modifies this
      ensures Valid()
      ensures r == (if id in old(quizzes) then Some(old(quizzes)[id]) else None)
      ensures quizzes == old(quizzes) - {id}
      ensures attempts == AttemptsNotOf(old(attempts), id)
      ensures options == WithoutParents(old(options), Ids(Children(old(questions), id)))
      ensures questions == WithoutParent(old(questions), id)
      ensures nextQuestionId == old(nextQuestionId) && nextOptionId == old(nextOptionId)
    {
      attempts := AttemptsNotOf(attempts, id);
      var questionIds := Ids(Children(questions, id));
      for i := 0 to |questionIds|
        invariant options == WithoutParents(old(options), questionIds[..i])
        invariant WellFormed(options, 1, nextOptionId)
        invariant questions == old(questions) && quizzes == old(quizzes) && attempts == AttemptsNotOf(old(attempts), id)
        invariant nextQuestionId == old(nextQuestionId) && nextOptionId == old(nextOptionId)
      {
        assert questionIds[..i + 1][..i] == questionIds[..i];
        WithoutParentKeepsWellFormed(options, questionIds[i], 1, nextOptionId);
        options := RemoveChildren(options, questionIds[i]);
      }
      assert questionIds[..|questionIds|] == questionIds;
      WithoutParentKeepsWellFormed(questions, id, 1, nextQuestionId);
      questions := RemoveChildren(questions, id);
      r := if id in quizzes then Some(quizzes[id]) else None;
      quizzes := quizzes - {id};
    }

    /** `addQuestion`: the next position in the quiz (1 for the first), points defaulting to 1. */
    method AddQuestion(quizId: nat, text: string, questionType: string, points: Option<int>)
      returns (r: QuestionRow)
      requires Valid()
      modifies this
      ensures Valid()
      ensures r.id == old(nextQuestionId) && r.parent == quizId
      ensures r.order == NextPosition(old(questions), quizId)
      ensures r.data == QuestionData(text, questionType, points.GetOr(1), Null)
      ensures questions == old(questions) + [r]
      ensures nextQuestionId == old(nextQuestionId) + 1
      ensures quizzes == old(quizzes) && options == old(options) && attempts == old(attempts) && nextOptionId == old(nextOptionId)
    {
      var order := NextPosition(questions, quizId);
      r := Row(nextQuestionId, quizId, order, QuestionData(text, questionType, points.GetOr(1), Null));
      AppendKeepsWellFormed(questions, r, 1, nextQuestionId);
      questions := questions + [r];
      nextQuestionId := nextQuestionId + 1;
    }

    /** `addOption`: the next position under the question, is_correct defaulting to false. */
    method AddOption(questionId: nat, text: string, isCorrect: Option<bool>) returns (r: OptionRow)
      requires Valid()
      modifies this
      ensures Valid()
      ensures r.id == old(nextOptionId) && r.parent == questionId
      ensures r.order == NextPosition(old(options), questionId)
      ensures r.data == OptionData(text, isCorrect.GetOr(false))
      ensures options == old(options) + [r]
      ensures nextOptionId == old(nextOptionId) + 1
      ensures quizzes == old(quizzes) && questions == old(questions) && attempts == old(attempts) && nextQuestionId == old(nextQuestionId)
    {
      var order := NextPosition(options, questionId);
      r := Row(nextOptionId, questionId, order, OptionData(text, isCorrect.GetOr(false)));
      AppendKeepsWellFormed(options, r, 1, nextOptionId);
      options := options + [r];
      nextOptionId := nextOptionId + 1;
    }

    /** `updateQuestion`: COALESCE merge of text, type and points; positions do not move. */
    method UpdateQuestion(id: nat, changes: QuestionChanges) returns (r: Option<QuestionRow>)
      requires Valid()
      modifies this
      ensures Valid()
      ensures questions == UpdatedRows(old(questions), id, d => MergedQuestion(d, changes))
      ensures r.None? <==> Find(old(questions), id).None?
      ensures r.Some? ==> r.value == questions[Find(old(questions), id).value]
      ensures quizzes == old(quizzes) && options == old(options) && attempts == old(attempts)
      ensures nextQuestionId == old(nextQuestionId) && nextOptionId == old(nextOptionId)
    {
      var updated := UpdatedRows(questions, id, d => MergedQuestion(d, changes));
      SameShapeKeepsWellFormed(questions, updated, 1, nextQuestionId);
      var t := Find(questions, id);
      questions := updated;
      r := if t.Some? then Some(questions[t.value]) else None;
    }

    /** `updateOption`: COALESCE merge of text and is_correct; positions do not move. */
    method UpdateOption(id: nat, changes: OptionChanges) returns (r: Option<OptionRow>)
      requires Valid()
      modifies this
      ensures Valid()
      ensures options == UpdatedRows(old(options), id, d => MergedOption(d, changes))
      ensures r.None? <==> Find(old(options), id).None?
      ensures r.Some? ==> r.value == options[Find(old(options), id).value]
      ensures quizzes == old(quizzes) && questions == old(questions) && attempts == old(attempts)
      ensures nextQuestionId == old(nextQuestionId) && nextOptionId == old(nextOptionId)
    {
      var updated := UpdatedRows(options, id, d => MergedOption(d, changes));
      SameShapeKeepsWellFormed(options, updated, 1, nextOptionId);
      var t := Find(options, id);
      options := updated;
      r := if t.Some? then Some(options[t.value]) else None;
    }

    /**
     * `deleteQuestion`: an unknown question gives null and changes nothing; otherwise its
     * options are deleted, then the question, then the later questions of the quiz move up.
     */
    method DeleteQuestion(id: nat) returns (r: Option<QuestionRow>)
      requires Valid()
      modifies this
      ensures Valid()
      ensures Find(old(questions), id).None? ==>
        r == None && questions == old(questions) && options == old(options)
      ensures Find(old(questions), id).Some? ==>
        r == Some(old(questions)[Find(old(questions), id).value]) &&
        options == WithoutParent(old(options), id) && questions == Deleted(old(questions), id)
      ensures quizzes == old(quizzes) && attempts == old(attempts)
      ensures nextQuestionId == old(nextQuestionId) && nextOptionId == old(nextOptionId)
    {
      var t := Find(questions, id);
      if t.None? {
        return None;
      }
      r := Some(questions[t.value]);
      WithoutParentKeepsWellFormed(options, id, 1, nextOptionId);
      options := RemoveChildren(options, id);
      DeleteKeepsWellFormed(questions, id, 1, nextQuestionId);
      questions := DeleteAndCompact(questions, id);
    }

    /**
     * `deleteOption`: an unknown option gives null and changes nothing; otherwise it is
     * deleted and the later options of its question move up.
     */
    method DeleteOption(id: nat) returns (r: Option<OptionRow>)
      requires Valid()
      modifies this
      ensures Valid()
      ensures Find(old(options), id).None? ==> r == None && options == old(options)
      ensures Find(old(options), id).Some? ==>
        r == Some(old(options)[Find(old(options), id).value]) && options == Deleted(old(options), id)
      ensures quizzes == old(quizzes) && questions == old(questions) && attempts == old(attempts)
      ensures nextQuestionId == old(nextQuestionId) && nextOptionId == old(nextOptionId)
    {
      var t := Find(options, id);
      if t.None? {
        return None;
      }
      r := Some(options[t.value]);
      DeleteKeepsWellFormed(options, id, 1, nextOptionId);
      options := DeleteAndCompact(options, id);
    }

    /**
     * `submitAttempt`: an unknown quiz throws; otherwise the quiz's questions are graded in
     * question_order and one attempt row is stored with the rounded percentage as its score.
     */
    method SubmitAttempt(quizId: nat, userId: nat, answers: seq<Answer>, timeTaken: Option<int>, now: int)
      returns (r: Result<Submission>)
      requires Valid()
      modifies this
      ensures Valid()
      ensures quizId !in old(quizzes) ==> r == Fail("Quiz not found") && attempts == old(attempts)
      ensures quizId in old(quizzes) ==> (r.Ok? &&
        var s := r.value;
        var g := Graded(ChildrenInOrder(old(questions), quizId), answers);
        s.gradedAnswers == g && s.totalScore == PointsEarned(g) && s.totalPoints == PointsPossible(g) &&
        s.percentage == Percentage(s.totalScore, s.totalPoints) &&
        s.attempt == Attempt(quizId, userId, s.percentage, s.totalPoints,
          s.percentage >= old(quizzes)[quizId].passingScore, g, now, timeTaken) &&
        attempts == old(attempts) + [s.attempt])
      ensures quizzes == old(quizzes) && questions == old(questions) && options == old(options)
      ensures nextQuestionId == old(nextQuestionId) && nextOptionId == old(nextOptionId)
    {
      if quizId !in quizzes {
        return Fail("Quiz not found");
      }
      var quiz := quizzes[quizId];
      var graded, totalScore, totalPoints := GradeAttempt(ChildrenInOrder(questions, quizId), answers);
      var percentage := Percentage(totalScore, totalPoints);
      var passed := percentage >= quiz.passingScore;
      var attempt := Attempt(quizId, userId, percentage, totalPoints, passed, graded, now, timeTaken);
      attempts := attempts + [attempt];
      r := Ok(Submission(attempt, graded, totalScore, totalPoints, percentage));
    }
  }
}
