/**
 * The quiz controller: auto-grading of a submitted attempt over option ids, the
 * guards in front of it, and the guard in front of publishing a quiz.
 */
module QuizController {
  import opened Wrappers
  import opened Http

  datatype QuizOption = QuizOption(id: int, isCorrect: bool)
  datatype Question = Question(id: int, questionType: string, points: int, options: seq<QuizOption>)
  /** One element of the submitted `answers` array. */
  datatype Answer = Answer(questionId: int, selected: seq<int>)
  /** A `questionMap` value: the question and the ids of its correct options. */
  datatype Entry = Entry(question: Question, correctOptions: seq<int>)

  function ToSet(s: seq<int>): set<int>
  {
    set x | x in s
  }

  /** `options.filter(o => o.is_correct).map(o => o.id)`. */
  function CorrectOptions(opts: seq<QuizOption>): (r: seq<int>)
    ensures forall x :: x in r <==> exists i :: 0 <= i < |opts| && opts[i].isCorrect && opts[i].id == x
  {
    if opts == [] then []
    else
      assert forall i :: 1 <= i < |opts| ==> opts[i] == opts[1..][i - 1];
      (if opts[0].isCorrect then [opts[0].id] else []) + CorrectOptions(opts[1..])
  }

  function EntryOf(q: Question): Entry
  {
    Entry(q, CorrectOptions(q.options))
  }

  /** `questionMap`, filled by `forEach` over the quiz's questions. */
  function QuestionMap(qs: seq<Question>): map<int, Entry>
  {
    if qs == [] then map[]
    else QuestionMap(qs[..|qs| - 1])[qs[|qs| - 1].id := EntryOf(qs[|qs| - 1])]
  }

  /** The keys of `questionMap` are the quiz's question ids. */
  lemma {:induction false} QuestionMapKeys(qs: seq<Question>, k: int)
    ensures k in QuestionMap(qs) <==> exists i :: 0 <= i < |qs| && qs[i].id == k
  {
    if qs != [] {
      var n := |qs| - 1;
      var init := qs[..n];
      QuestionMapKeys(init, k);
      if k in QuestionMap(init) {
        var i :| 0 <= i < n && init[i].id == k;
        assert qs[i].id == k;
      }
      if exists i :: 0 <= i < |qs| && qs[i].id == k {
        var i :| 0 <= i < |qs| && qs[i].id == k;
        if i < n {
          assert init[i].id == k;
        }
      }
    }
  }

  /** For an id that several questions share, the last of them is the one in `questionMap`. */
  lemma {:induction false} QuestionMapLast(qs: seq<Question>, i: nat)
    requires i < |qs| && forall j :: i < j < |qs| ==> qs[j].id != qs[i].id
    ensures qs[i].id in QuestionMap(qs) && QuestionMap(qs)[qs[i].id] == EntryOf(qs[i])
  {
    var n := |qs| - 1;
    if i < n {
      var init := qs[..n];
      assert forall j :: i < j < n ==> init[j].id != init[i].id;
      QuestionMapLast(init, i);
      assert init[i] == qs[i];
    }
  }

  /** Sum of `points` over every question of the quiz. */
  function TotalPoints(qs: seq<Question>): int
  {
    if qs == [] then 0 else TotalPoints(qs[..|qs| - 1]) + qs[|qs| - 1].points
  }

  /**
   * Whether an answer is right, stated directly: a multiple-choice answer selects
   * exactly the set of correct options, a true/false answer selects one correct option.
   */
  predicate Earns(m: map<int, Entry>, a: Answer)
  {
    && a.questionId in m
    && var e := m[a.questionId];
       || (e.question.questionType == "multiple_choice" && ToSet(a.selected) == ToSet(e.correctOptions))
       || (e.question.questionType == "true_false" && exists x :: x in e.correctOptions && a.selected == [x])
  }

  /** The source's multiple-choice test: same set size and every selected id is correct. */
  predicate SameSizeAllCorrect(selected: seq<int>, correct: seq<int>)
  {
    |ToSet(selected)| == |ToSet(correct)| && forall x :: x in ToSet(selected) ==> x in ToSet(correct)
  }

  /** Equal size plus inclusion is set equality: there is no partial credit, and repeated ids collapse. */
  lemma SameSizeAllCorrectIsSetEquality(selected: seq<int>, correct: seq<int>)
    ensures SameSizeAllCorrect(selected, correct) <==> ToSet(selected) == ToSet(correct)
  {
    var a, b := ToSet(selected), ToSet(correct);
    if SameSizeAllCorrect(selected, correct) {
      assert forall x :: x in a ==> x in b;
      assert a <= b;
      assert b == a + (b - a);
      assert a * (b - a) == {};
      assert |b| == |a| + |b - a|;
      assert b - a == {};
    }
  }

  /** Points one answer earns, as the loop over `answers` decides it. */
  function Credit(m: map<int, Entry>, a: Answer): int
  {
    if a.questionId !in m then 0
    else
      var e := m[a.questionId];
      if e.question.questionType == "multiple_choice" then
        if SameSizeAllCorrect(a.selected, e.correctOptions) then e.question.points else 0
      else if e.question.questionType == "true_false" then
        if |a.selected| == 1 && a.selected[0] in e.correctOptions then e.question.points else 0
      else 0
  }

  /**
   * An answer earns its question's full points exactly when it is right, and nothing
   * otherwise: there is no partial credit.
   */
  lemma CreditMeansRight(m: map<int, Entry>, a: Answer)
    ensures Credit(m, a) == (if Earns(m, a) then m[a.questionId].question.points else 0)
  {
    if a.questionId in m {
      var e := m[a.questionId];
      SameSizeAllCorrectIsSetEquality(a.selected, e.correctOptions);
      if |a.selected| == 1 && a.selected[0] in e.correctOptions {
        var x := a.selected[0];
        assert a.selected == [x];
        assert x in e.correctOptions && a.selected == [x];
      }
    }
  }

  /** `earnedPoints`: the credits of every submitted answer, in order. */
  function Earned(m: map<int, Entry>, answers: seq<Answer>): int
  {
    if answers == [] then 0
    else Earned(m, answers[..|answers| - 1]) + Credit(m, answers[|answers| - 1])
  }

  /** The source's test of an answer, the one that increments `correctAnswers`. */
  predicate Right(m: map<int, Entry>, a: Answer)
  {
    && a.questionId in m
    && var e := m[a.questionId];
       || (e.question.questionType == "multiple_choice" && SameSizeAllCorrect(a.selected, e.correctOptions))
       || (e.question.questionType == "true_false" && |a.selected| == 1 && a.selected[0] in e.correctOptions)
  }

  /** `correctAnswers`: how many submitted answers are right. */
  function CorrectCount(m: map<int, Entry>, answers: seq<Answer>): nat
  {
    if answers == [] then 0
    else CorrectCount(m, answers[..|answers| - 1]) + (if Right(m, answers[|answers| - 1]) then 1 else 0)
  }

  /** The grading loops of `submitQuizAttempt`. */
  method Grade(questions: seq<Question>, answers: seq<Answer>) returns (total: int, earned: int, correct: nat)
    ensures total == TotalPoints(questions)
    ensures earned == Earned(QuestionMap(questions), answers)
    ensures correct == CorrectCount(QuestionMap(questions), answers)
  {
    total, earned, correct := 0, 0, 0;
    var questionMap: map<int, Entry> := map[];
    var i := 0;
    while i < |questions|
      invariant 0 <= i <= |questions|
      invariant total == TotalPoints(questions[..i])
      invariant questionMap == QuestionMap(questions[..i])
    {
      var q := questions[i];
      assert questions[..i + 1][..i] == questions[..i];
      total := total + q.points;
      questionMap := questionMap[q.id := Entry(q, CorrectOptions(q.options))];
      i := i + 1;
    }
    assert questions[..i] == questions;
    var j := 0;
    while j < |answers|
      invariant 0 <= j <= |answers|
      invariant earned == Earned(questionMap, answers[..j])
      invariant correct == CorrectCount(questionMap, answers[..j])
    {
      var a := answers[j];
      assert answers[..j + 1][..j] == answers[..j];
      if a.questionId in questionMap {
        var e := questionMap[a.questionId];
        if e.question.questionType == "multiple_choice" {
          var selectedSet, correctSet := ToSet(a.selected), ToSet(e.correctOptions);
          var isCorrect := |selectedSet| == |correctSet| && forall x :: x in selectedSet ==> x in correctSet;
          if isCorrect {
            earned := earned + e.question.points;
            correct := correct + 1;
          }
        } else if e.question.questionType == "true_false" {
          if |a.selected| == 1 && a.selected[0] in e.correctOptions {
            earned := earned + e.question.points;
            correct := correct + 1;
          }
        }
      }
      j := j + 1;
    }
    assert answers[..j] == answers;
  }

  // ---------------------------------------------------------------------------
  // What the grade means.

  /** An answer to a question that is not in the quiz, or of another question type, earns nothing. */
  lemma IgnoredAnswers(m: map<int, Entry>, a: Answer)
    ensures a.questionId !in m ==> Credit(m, a) == 0
    ensures a.questionId in m && m[a.questionId].question.questionType !in {"multiple_choice", "true_false"} ==>
              Credit(m, a) == 0
  {
  }

  /** Only the questions that some answer names affect the earned points. */
  lemma {:induction false} EarnedOnlyAnswered(m1: map<int, Entry>, m2: map<int, Entry>, answers: seq<Answer>)
    requires forall i :: 0 <= i < |answers| ==>
      (answers[i].questionId in m1 <==> answers[i].questionId in m2) &&
      (answers[i].questionId in m1 ==> m1[answers[i].questionId] == m2[answers[i].questionId])
    ensures Earned(m1, answers) == Earned(m2, answers)
  {
    if answers != [] {
      EarnedOnlyAnswered(m1, m2, answers[..|answers| - 1]);
    }
  }

  /** Answers whose question ids are pairwise different. */
  predicate DistinctQuestions(answers: seq<Answer>)
  {
    forall i, j :: 0 <= i < j < |answers| ==> answers[i].questionId != answers[j].questionId
  }

  function AnswersTo(answers: seq<Answer>, id: int): seq<Answer>
  {
    if answers == [] then []
    else AnswersTo(answers[..|answers| - 1], id) + (if answers[|answers| - 1].questionId == id then [answers[|answers| - 1]] else [])
  }

  function AnswersNotTo(answers: seq<Answer>, id: int): (r: seq<Answer>)
    ensures forall i :: 0 <= i < |r| ==> r[i].questionId != id
    ensures forall i :: 0 <= i < |r| ==> exists k :: 0 <= k < |answers| && r[i] == answers[k]
  {
    if answers == [] then []
    else
      var n := |answers| - 1;
      var init := AnswersNotTo(answers[..n], id);
      assert forall i :: 0 <= i < |init| ==> exists k :: 0 <= k < n && init[i] == answers[k];
      init + (if answers[n].questionId != id then [answers[n]] else [])
  }

  /** Appending one answer adds its credit. */
  lemma EarnedSnoc(m: map<int, Entry>, s: seq<Answer>, a: Answer)
    ensures Earned(m, s + [a]) == Earned(m, s) + Credit(m, a)
  {
    assert (s + [a])[..|s|] == s;
  }

  /** Earned points split into the answers to one question and the rest. */
  lemma {:induction false} EarnedSplit(m: map<int, Entry>, answers: seq<Answer>, id: int)
    ensures Earned(m, answers) == Earned(m, AnswersTo(answers, id)) + Earned(m, AnswersNotTo(answers, id))
  {
    if answers != [] {
      var n := |answers| - 1;
      var a := answers[n];
      EarnedSplit(m, answers[..n], id);
      EarnedSnoc(m, answers[..n], a);
      assert answers[..n] + [a] == answers;
      var s := AnswersTo(answers[..n], id);
      var t := AnswersNotTo(answers[..n], id);
      if a.questionId == id {
        assert AnswersTo(answers, id) == s + [a];
        assert AnswersNotTo(answers, id) == t;
        EarnedSnoc(m, s, a);
      } else {
        assert AnswersTo(answers, id) == s;
        assert AnswersNotTo(answers, id) == t + [a];
        EarnedSnoc(m, t, a);
      }
    }
  }

  lemma {:induction false} AnswersToDistinct(answers: seq<Answer>, id: int)
    requires DistinctQuestions(answers)
    ensures |AnswersTo(answers, id)| <= 1
    ensures forall i :: 0 <= i < |AnswersTo(answers, id)| ==> AnswersTo(answers, id)[i].questionId == id
  {
    if answers != [] {
      var n := |answers| - 1;
      assert DistinctQuestions(answers[..n]);
      AnswersToDistinct(answers[..n], id);
      if answers[n].questionId == id && |AnswersTo(answers[..n], id)| == 1 {
        var s := AnswersTo(answers[..n], id);
        AnswersToFrom(answers[..n], id);
        var k :| 0 <= k < n && s[0] == answers[k];
        assert false;
      }
    }
  }

  lemma {:induction false} AnswersToFrom(answers: seq<Answer>, id: int)
    ensures forall i :: 0 <= i < |AnswersTo(answers, id)| ==>
      exists k :: 0 <= k < |answers| && AnswersTo(answers, id)[i] == answers[k]
  {
    if answers != [] {
      var n := |answers| - 1;
      AnswersToFrom(answers[..n], id);
      var s := AnswersTo(answers[..n], id);
      var r := AnswersTo(answers, id);
      assert r == s + (if answers[n].questionId == id then [answers[n]] else []);
      forall i | 0 <= i < |r|
        ensures exists k :: 0 <= k < |answers| && r[i] == answers[k]
      {
        if i < |s| {
          var k :| 0 <= k < n && s[i] == answers[..n][k];
          assert r[i] == answers[k];
        } else {
          assert r[i] == answers[n];
        }
      }
      assert forall i :: 0 <= i < |r| ==> exists k :: 0 <= k < |answers| && r[i] == answers[k];
    } else {
      assert AnswersTo(answers, id) == [];
    }
  }

  lemma DistinctSubsequence(answers: seq<Answer>, id: int)
    requires DistinctQuestions(answers)
    ensures DistinctQuestions(AnswersNotTo(answers, id))
  {
    var r := AnswersNotTo(answers, id);
    forall i, j | 0 <= i < j < |r|
      ensures r[i].questionId != r[j].questionId
    {
      AnswersNotToIndices(answers, id, i, j);
    }
  }

  lemma {:induction false} AnswersNotToIndices(answers: seq<Answer>, id: int, i: nat, j: nat)
    requires i < j < |AnswersNotTo(answers, id)|
    ensures exists ki, kj :: (0 <= ki < kj < |answers| &&
      AnswersNotTo(answers, id)[i] == answers[ki] && AnswersNotTo(answers, id)[j] == answers[kj])
  {
    var n := |answers| - 1;
    var init := AnswersNotTo(answers[..n], id);
    if j < |init| {
      AnswersNotToIndices(answers[..n], id, i, j);
      var ki, kj :| 0 <= ki < kj < n && init[i] == answers[..n][ki] && init[j] == answers[..n][kj];
      assert AnswersNotTo(answers, id)[i] == answers[ki] && AnswersNotTo(answers, id)[j] == answers[kj];
    } else {
      var ki :| 0 <= ki < n && init[i] == answers[ki];
      assert AnswersNotTo(answers, id)[i] == answers[ki] && AnswersNotTo(answers, id)[j] == answers[n];
    }
  }

  /** Every credit is 0 or the question's points, so with non-negative points it is never negative. */
  lemma {:induction false} EarnedNonNegative(m: map<int, Entry>, answers: seq<Answer>)
    requires forall k :: k in m ==> m[k].question.points >= 0
    ensures Earned(m, answers) >= 0
  {
    if answers != [] {
      EarnedNonNegative(m, answers[..|answers| - 1]);
    }
  }

  predicate NonNegativePoints(qs: seq<Question>)
  {
    forall i :: 0 <= i < |qs| ==> qs[i].points >= 0
  }

  /**
   * When the answers name pairwise different questions and points are non-negative,
   * the earned points never exceed the total, so the percentage stays within 0..100.
   */
  lemma {:induction false} DistinctAnswersWithinTotal(qs: seq<Question>, answers: seq<Answer>)
    requires NonNegativePoints(qs) && DistinctQuestions(answers)
    ensures 0 <= Earned(QuestionMap(qs), answers) <= TotalPoints(qs)
  {
    PointsOfMap(qs);
    EarnedNonNegative(QuestionMap(qs), answers);
    if qs == [] {
      EarnedOnlyAnswered(QuestionMap(qs), map[], answers);
      EarnedNothingFromEmpty(answers);
    } else {
      var n := |qs| - 1;
      var q := qs[n];
      var init := qs[..n];
      assert NonNegativePoints(init);
      var m := QuestionMap(qs);
      var m0 := QuestionMap(init);
      assert m == m0[q.id := EntryOf(q)];
      var rest := AnswersNotTo(answers, q.id);
      assert Earned(m, answers) == Earned(m, AnswersTo(answers, q.id)) + Earned(m, rest) by {
        EarnedSplit(m, answers, q.id);
      }
      assert Earned(m, AnswersTo(answers, q.id)) <= q.points by {
        AnswersToEarnAtMost(m, answers, q);
      }
      // the others see the same entries as before q was added
      assert Earned(m, rest) <= TotalPoints(init) by {
        OthersIgnoreNewEntry(m0, q, rest);
        DistinctSubsequence(answers, q.id);
        DistinctAnswersWithinTotal(init, rest);
      }
      assert TotalPoints(qs) == TotalPoints(init) + q.points;
    }
  }

  /** Answers to other questions earn the same before and after a question is added to the map. */
  lemma OthersIgnoreNewEntry(m0: map<int, Entry>, q: Question, rest: seq<Answer>)
    requires forall i :: 0 <= i < |rest| ==> rest[i].questionId != q.id
    ensures Earned(m0[q.id := EntryOf(q)], rest) == Earned(m0, rest)
  {
    EarnedOnlyAnswered(m0[q.id := EntryOf(q)], m0, rest);
  }

  /** With distinct question ids, the answers to one question earn at most its points. */
  lemma AnswersToEarnAtMost(m: map<int, Entry>, answers: seq<Answer>, q: Question)
    requires q.id in m && m[q.id] == EntryOf(q) && q.points >= 0 && DistinctQuestions(answers)
    ensures Earned(m, AnswersTo(answers, q.id)) <= q.points
  {
    var to := AnswersTo(answers, q.id);
    AnswersToDistinct(answers, q.id);
    if |to| == 1 {
      assert to == to[..0] + [to[0]];
      assert to[..0] == [];
      assert Earned(m, to) == Credit(m, to[0]);
    } else {
      assert to == [];
    }
  }

  lemma PointsOfMap(qs: seq<Question>)
    requires NonNegativePoints(qs)
    ensures forall k :: k in QuestionMap(qs) ==> QuestionMap(qs)[k].question.points >= 0
  {
    var m := QuestionMap(qs);
    forall k | k in m
      ensures m[k].question.points >= 0
    {
      QuestionMapKeys(qs, k);
      var i :| 0 <= i < |qs| && qs[i].id == k;
      var last := LastWithId(qs, i);
      QuestionMapLast(qs, last);
    }
  }

  /** The last question carrying the same id as question `i`. */
  lemma LastWithId(qs: seq<Question>, i: nat) returns (l: nat)
    requires i < |qs|
    ensures i <= l < |qs| && qs[l].id == qs[i].id
    ensures forall j :: l < j < |qs| ==> qs[j].id != qs[l].id
    decreases |qs| - i
  {
    if exists j :: i < j < |qs| && qs[j].id == qs[i].id {
      var j :| i < j < |qs| && qs[j].id == qs[i].id;
      l := LastWithId(qs, j);
    } else {
      l := i;
    }
  }

  lemma {:induction false} EarnedNothingFromEmpty(answers: seq<Answer>)
    ensures Earned(map[], answers) == 0
  {
    if answers != [] {
      EarnedNothingFromEmpty(answers[..|answers| - 1]);
    }
  }

  /**
   * The loop runs over the answers, not the questions: the same right answer
   * submitted twice is credited twice.
   */
  lemma RepeatedAnswerCreditedTwice(m: map<int, Entry>, answers: seq<Answer>, a: Answer)
    ensures Earned(m, answers + [a, a]) == Earned(m, answers) + 2 * Credit(m, a)
  {
    var s := answers + [a, a];
    assert s[..|s| - 1] == answers + [a];
    assert (answers + [a])[..|answers|] == answers;
  }

  /** One five-point true/false question answered right twice: 10 points earned out of 5, 200 percent. */
  lemma DoubleCreditCase()
    ensures var qs := [Question(1, "true_false", 5, [QuizOption(10, true), QuizOption(11, false)])];
      var answers := [Answer(1, [10]), Answer(1, [10])];
      && TotalPoints(qs) == 5
      && Earned(QuestionMap(qs), answers) == 10
      && Percentage(TotalPoints(qs), Earned(QuestionMap(qs), answers)) == 200.0
  {
    var q := Question(1, "true_false", 5, [QuizOption(10, true), QuizOption(11, false)]);
    var qs := [q];
    assert qs[..0] == [];
    assert CorrectOptions(q.options) == [10] by {
      assert q.options[1..][1..] == [];
    }
    var m := QuestionMap(qs);
    assert m == QuestionMap(qs[..0])[1 := EntryOf(q)];
    assert m == map[1 := Entry(q, [10])];
    assert Credit(m, Answer(1, [10])) == 5;
    RepeatedAnswerCreditedTwice(m, [], Answer(1, [10]));
  }

  // ---------------------------------------------------------------------------
  // The corrected grader: each question is graded once, from the first answer that names it.

  function FirstAnswer(answers: seq<Answer>, id: int): (r: Option<Answer>)
    ensures r.Some? ==> r.value.questionId == id && r.value in answers
    ensures r.None? ==> forall i :: 0 <= i < |answers| ==> answers[i].questionId != id
  {
    if answers == [] then None
    else if answers[0].questionId == id then Some(answers[0])
    else FirstAnswer(answers[1..], id)
  }

  /** Earned points when every question is credited at most once. */
  function EarnedOnce(qs: seq<Question>, answers: seq<Answer>): int
  {
    if qs == [] then 0
    else
      var q := qs[|qs| - 1];
      var credit := match FirstAnswer(answers, q.id)
        case None => 0
        case Some(a) => Credit(map[q.id := EntryOf(q)], a);
      EarnedOnce(qs[..|qs| - 1], answers) + credit
  }

  /** Graded once per question, the earned points lie within 0..total whatever the answers repeat. */
  lemma {:induction false} EarnedOnceWithinTotal(qs: seq<Question>, answers: seq<Answer>)
    requires NonNegativePoints(qs)
    ensures 0 <= EarnedOnce(qs, answers) <= TotalPoints(qs)
  {
    if qs != [] {
      assert NonNegativePoints(qs[..|qs| - 1]);
      EarnedOnceWithinTotal(qs[..|qs| - 1], answers);
    }
  }

  // ---------------------------------------------------------------------------
  // Percentage and pass mark.

  /** `percentageScore`: earned / total * 100, or 0 for a quiz without points. */
  function Percentage(total: int, earned: int): (p: real)
    ensures total > 0 ==> p * (total as real) == 100.0 * (earned as real)
    ensures total <= 0 ==> p == 0.0
  {
    if total > 0 then (earned as real) / (total as real) * 100.0 else 0.0
  }

  /** `isPassed`, compared without division: 100 * earned >= passing_score * total. */
  lemma PassedIffCrossMultiplied(total: int, earned: int, passing: int)
    ensures Percentage(total, earned) >= passing as real <==>
      (if total > 0 then 100 * earned >= passing * total else 0 >= passing)
  {
    if total > 0 {
      var p, t := Percentage(total, earned), total as real;
      assert p * t == 100.0 * (earned as real);
      if p >= passing as real {
        assert p * t >= (passing as real) * t;
      } else {
        assert p * t < (passing as real) * t;
      }
      assert ((passing * total) as real) == (passing as real) * t;
      assert ((100 * earned) as real) == 100.0 * (earned as real);
    }
  }

  /** Two five-point questions, one right, pass mark 60: 50 percent, not passed. */
  lemma HalfRightCase()
    ensures Percentage(10, 5) == 50.0 && !(Percentage(10, 5) >= 60 as real)
  {
  }

  // ---------------------------------------------------------------------------
  // The handlers.

  datatype Quiz = Quiz(id: int, lessonId: int, title: string, isPublished: bool, passingScore: int)

  /** The row `recordAttempt` inserts. */
  datatype Attempt = Attempt(quizId: int, userId: int, score: real, passed: bool, timeTaken: Option<int>, answers: seq<Answer>)

  /** What `submitQuizAttempt` answers and which writes it made. */
  datatype Submitted = Submitted(status: Status, attempt: Option<Attempt>, lessonCompleted: bool, notified: bool)

  /**
   * `submitQuizAttempt`. `answers` is None when the body has no array; `enrolled` is the
   * lesson model's active-enrollment check; `questions` is what `findByIdWithQuestions`
   * returns, None when that call throws (QuizModel defines no such method, so as
   * written it always throws); `completes` says whether the lesson-completion call
   * returns (LessonModel defines no `markLessonCompleted`, so as written it throws).
   */
  function SubmitQuizAttempt(userId: int, answers: Option<seq<Answer>>, quiz: Option<Quiz>, enrolled: bool,
                             questions: Option<seq<Question>>, completes: bool): (r: Submitted)
    ensures answers.None? ==> r.status == BAD_REQUEST
    ensures answers.Some? && quiz.None? ==> r.status == NOT_FOUND
    ensures answers.Some? && quiz.Some? && !quiz.value.isPublished ==> r.status == FORBIDDEN
    ensures answers.Some? && quiz.Some? && quiz.value.isPublished && !enrolled ==> r.status == FORBIDDEN
    ensures r.attempt.Some? <==> answers.Some? && quiz.Some? && quiz.value.isPublished && enrolled && questions.Some?
    ensures r.attempt.Some? ==>
      var t := TotalPoints(questions.value);
      var e := Earned(QuestionMap(questions.value), answers.value);
      && r.attempt.value == Attempt(quiz.value.id, userId, Percentage(t, e),
                                    Percentage(t, e) >= quiz.value.passingScore as real, None, answers.value)
    ensures r.notified <==> r.lessonCompleted
    ensures r.notified <==> r.attempt.Some? && r.attempt.value.passed && completes
    ensures r.status == OK <==> r.attempt.Some? && (!r.attempt.value.passed || completes)
  {
    if answers.None? then Submitted(BAD_REQUEST, None, false, false)
    else if quiz.None? then Submitted(NOT_FOUND, None, false, false)
    else if !quiz.value.isPublished then Submitted(FORBIDDEN, None, false, false)
    else if !enrolled then Submitted(FORBIDDEN, None, false, false)
    else if questions.None? then Submitted(SERVER_ERROR, None, false, false)
    else
      var total := TotalPoints(questions.value);
      var earned := Earned(QuestionMap(questions.value), answers.value);
      var score := Percentage(total, earned);
      var passed := score >= quiz.value.passingScore as real;
      var attempt := Attempt(quiz.value.id, userId, score, passed, None, answers.value);
      if !passed then Submitted(OK, Some(attempt), false, false)
      else if !completes then Submitted(SERVER_ERROR, Some(attempt), false, false)
      else Submitted(OK, Some(attempt), true, true)
  }

  /**
   * The double credit is latent: the handler reaches the scoring loop only once
   * `findByIdWithQuestions` returns. As written that call throws and the answer is a
   * 500 with no attempt; given the questions, the repeated answer is recorded at 200 percent.
   */
  lemma DoubleCreditThroughHandler(userId: int, quiz: Quiz, completes: bool)
    requires quiz.isPublished && quiz.passingScore <= 200
    ensures var qs := [Question(1, "true_false", 5, [QuizOption(10, true), QuizOption(11, false)])];
      var answers := [Answer(1, [10]), Answer(1, [10])];
      var asWritten := SubmitQuizAttempt(userId, Some(answers), Some(quiz), true, None, completes);
      var given := SubmitQuizAttempt(userId, Some(answers), Some(quiz), true, Some(qs), completes);
      && asWritten.status == SERVER_ERROR && asWritten.attempt.None?
      && given.attempt.Some? && given.attempt.value.score == 200.0 && given.attempt.value.passed
  {
    DoubleCreditCase();
  }

  /** What `publishQuiz` answers, and whether the quiz was published. */
  datatype Published = Published(status: Status, published: bool)

  /**
   * `publishQuiz`. `instructorId` is the owning course's instructor; `questions` is
   * what `findByIdWithQuestions` returns, None when that call throws.
   */
  function PublishQuiz(user: Option<User>, quiz: Option<Quiz>, instructorId: int,
                       questions: Option<seq<Question>>): (r: Published)
    ensures r.published <==> r.status == OK
    ensures r.published <==> quiz.Some? && AdminOrOwner(user, instructorId) && questions.Some? && |questions.value| > 0
    ensures quiz.None? ==> r.status == NOT_FOUND
    ensures quiz.Some? && !AdminOrOwner(user, instructorId) ==> r.status == FORBIDDEN
    ensures quiz.Some? && AdminOrOwner(user, instructorId) && questions == Some([]) ==> r.status == BAD_REQUEST
  {
    if quiz.None? then Published(NOT_FOUND, false)
    else if !AdminOrOwner(user, instructorId) then Published(FORBIDDEN, false)
    else if questions.None? then Published(SERVER_ERROR, false)
    else if |questions.value| == 0 then Published(BAD_REQUEST, false)
    else Published(OK, true)
  }
}
