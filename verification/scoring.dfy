/** `submitQuiz` (QuizEngine.tsx, lines 133-158): every question of the
    session is classified once as correct, wrong or skipped, and the tallies
    become the result record. */
module Scoring {
  import opened QuizTypes
  import opened Answers

  datatype Verdict = Correct | Wrong | Skipped

  /** Points awarded per correct answer; no partial or negative marking. */
  const PointsPerCorrect: nat := 2

  /** The `forEach` body: no answer, or an explicit `null`, is a skip; a
      selection equal to `correctAnswer` is correct; anything else is wrong. */
  function Classify(q: Question, answers: seq<UserAnswer>): (v: Verdict)
    ensures v == Skipped <==> Find(answers, q.id).None? || Find(answers, q.id).value.selected.None?
    ensures v == Correct <==> Find(answers, q.id).Some? && Find(answers, q.id).value.selected == Some(q.correctAnswer)
  {
    match Find(answers, q.id)
    case None => Skipped
    case Some(a) =>
      if a.selected.None? then Skipped
      else if a.selected.value == q.correctAnswer then Correct
      else Wrong
  }

  /** How many questions of `qs` receive verdict `v`. */
  function Tally(qs: seq<Question>, answers: seq<UserAnswer>, v: Verdict): (r: nat)
    ensures r <= |qs|
  {
    if |qs| == 0 then 0
    else Tally(qs[..|qs| - 1], answers, v) + (if Classify(qs[|qs| - 1], answers) == v then 1 else 0)
  }

  /** A tally is zero exactly when no question of the session receives
      that verdict. */
  lemma {:induction false} TallyZero(qs: seq<Question>, answers: seq<UserAnswer>, v: Verdict)
    ensures Tally(qs, answers, v) == 0 <==> forall i :: 0 <= i < |qs| ==> Classify(qs[i], answers) != v
  {
    if |qs| > 0 {
      var init := qs[..|qs| - 1];
      TallyZero(init, answers, v);
      assert forall i :: 0 <= i < |init| ==> init[i] == qs[i];
    }
  }

  /** Every question lands in exactly one of the three tallies. */
  lemma {:induction false} TallyPartition(qs: seq<Question>, answers: seq<UserAnswer>)
    ensures Tally(qs, answers, Correct) + Tally(qs, answers, Wrong) + Tally(qs, answers, Skipped) == |qs|
  {
    if |qs| > 0 {
      TallyPartition(qs[..|qs| - 1], answers);
    }
  }

  /** The record `submitQuiz` hands to `onComplete`. */
  function Result(category: string, qs: seq<Question>, answers: seq<UserAnswer>, totalTimer: nat): (r: QuizResult)
    ensures r.correctCount + r.wrongCount + r.skippedCount == r.totalQuestions == |qs|
    ensures r.correctCount == Tally(qs, answers, Correct)
    ensures r.wrongCount == Tally(qs, answers, Wrong)
    ensures r.skippedCount == Tally(qs, answers, Skipped)
    ensures r.score == PointsPerCorrect * r.correctCount
    ensures r.timeSpent == totalTimer && r.answers == answers
    ensures r.category == category && r.quizId == category
  {
    TallyPartition(qs, answers);
    var correct := Tally(qs, answers, Correct);
    QuizResult(
      quizId := category,
      category := category,
      score := PointsPerCorrect * correct,
      totalQuestions := |qs|,
      correctCount := correct,
      wrongCount := Tally(qs, answers, Wrong),
      skippedCount := Tally(qs, answers, Skipped),
      timeSpent := totalTimer,
      answers := answers)
  }

  /** The counting loop of `submitQuiz`, one question at a time. */
  method SubmitQuiz(category: string, qs: seq<Question>, answers: seq<UserAnswer>, totalTimer: nat)
    returns (r: QuizResult)
    ensures r == Result(category, qs, answers, totalTimer)
  {
    var correct, wrong, skipped := 0, 0, 0;
    var i := 0;
    while i < |qs|
      invariant 0 <= i <= |qs|
      invariant correct == Tally(qs[..i], answers, Correct)
      invariant wrong == Tally(qs[..i], answers, Wrong)
      invariant skipped == Tally(qs[..i], answers, Skipped)
    {
      assert qs[..i + 1][..i] == qs[..i];
      var ans := Find(answers, qs[i].id);
      if ans.None? || ans.value.selected.None? {
        skipped := skipped + 1;
      } else if ans.value.selected.value == qs[i].correctAnswer {
        correct := correct + 1;
      } else {
        wrong := wrong + 1;
      }
      i := i + 1;
    }
    assert qs[..i] == qs;
    r := QuizResult(
      quizId := category,
      category := category,
      score := PointsPerCorrect * correct,
      totalQuestions := |qs|,
      correctCount := correct,
      wrongCount := wrong,
      skippedCount := skipped,
      timeSpent := totalTimer,
      answers := answers);
  }

  /** With no answers at all, every question is a skip and nothing scores. */
  lemma {:induction false} NoAnswersAllSkipped(qs: seq<Question>)
    ensures Tally(qs, [], Skipped) == |qs|
    ensures Tally(qs, [], Correct) == 0 && Tally(qs, [], Wrong) == 0
  {
    if |qs| > 0 {
      NoAnswersAllSkipped(qs[..|qs| - 1]);
    }
  }

  /** Question identities are pairwise distinct. */
  predicate DistinctIds(qs: seq<Question>)
  {
    forall i, j :: 0 <= i < j < |qs| ==> qs[i].id != qs[j].id
  }

  /** Some question of `qs` has identity `id`. */
  predicate HasId(qs: seq<Question>, id: string)
  {
    exists i :: 0 <= i < |qs| && qs[i].id == id
  }

  /** An answer to a question outside `qs` does not move the tallies. */
  lemma {:induction false} SkippedSnocForeign(qs: seq<Question>, answers: seq<UserAnswer>, a: UserAnswer)
    requires Find(answers, a.questionId).None?
    requires !HasId(qs, a.questionId)
    ensures Tally(qs, answers + [a], Skipped) == Tally(qs, answers, Skipped)
  {
    if |qs| > 0 {
      var last := qs[|qs| - 1];
      FindSnoc(answers, a, last.id);
      SkippedSnocForeign(qs[..|qs| - 1], answers, a);
    }
  }

  /** Appending the first answer to a question of the session removes one
      skip exactly when that answer carries a selection. */
  lemma {:induction false} SkippedSnoc(qs: seq<Question>, answers: seq<UserAnswer>, a: UserAnswer)
    requires DistinctIds(qs)
    requires HasId(qs, a.questionId)
    requires Find(answers, a.questionId).None?
    ensures Tally(qs, answers + [a], Skipped) + (if a.selected.Some? then 1 else 0) == Tally(qs, answers, Skipped)
  {
    var n := |qs|;
    var prefix := qs[..n - 1];
    var last := qs[n - 1];
    FindSnoc(answers, a, last.id);
    if last.id == a.questionId {
      assert !HasId(prefix, a.questionId);
      SkippedSnocForeign(prefix, answers, a);
    } else {
      var i :| 0 <= i < n && qs[i].id == a.questionId;
      assert prefix[i].id == a.questionId;
      SkippedSnoc(prefix, answers, a);
    }
  }

  /** The confirmation dialog's "attempted" count (line 360) equals the
      number of questions that score as correct or wrong, provided the
      session's questions have distinct identities and every answer belongs
      to one of them with at most one answer per question. */
  lemma {:induction false} AttemptedIsCorrectPlusWrong(qs: seq<Question>, answers: seq<UserAnswer>)
    requires DistinctIds(qs)
    requires UniqueIds(answers)
    requires forall i :: 0 <= i < |answers| ==> HasId(qs, answers[i].questionId)
    ensures Attempted(answers) == Tally(qs, answers, Correct) + Tally(qs, answers, Wrong)
  {
    TallyPartition(qs, answers);
    if |answers| == 0 {
      NoAnswersAllSkipped(qs);
    } else {
      var n := |answers|;
      var prefix := answers[..n - 1];
      var a := answers[n - 1];
      assert answers == prefix + [a];
      assert Find(prefix, a.questionId).None?;
      AttemptedIsCorrectPlusWrong(qs, prefix);
      TallyPartition(qs, prefix);
      SkippedSnoc(qs, prefix, a);
      AttemptedSnoc(prefix, a);
    }
  }
}
