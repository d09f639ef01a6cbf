/** The quiz session engine (components/QuizEngine.tsx) as one immutable
    state record and pure step functions.

    React's asynchronous wiring is replaced by synchronous steps: every user
    action is one function, the two one-second intervals become one `Tick`,
    and the effect that re-arms the per-question countdown when the position
    changes (lines 75-77) is applied atomically by `Sync` inside each step
    that moves the position. How the source's deferred effects actually
    interleave is modelled separately in module TimerEffects. */
module QuizEngine {
  import opened QuizTypes
  import opened Answers
  import SeqUtil
  import SessionInit
  import Scoring

  /** The component's state (lines 17-50) together with the props it reads
      (`category` for the result, `settings.showTimer`). */
  datatype Engine = Engine(
    category: string,
    questions: seq<Question>,
    showTimer: bool,
    currentIdx: int,
    answers: seq<UserAnswer>,
    marked: set<int>,
    totalTimer: nat,
    questionTimer: int,
    showConfirm: bool,
    showHint: bool,
    showNavGrid: bool)

  /** Lines 160-169: a session without questions renders "No content
      available" and offers only an exit; the model keeps no engine state for it. */
  datatype Screen = NoContent | Running(engine: Engine)

  /** The position indexes the session. */
  predicate InRange(e: Engine)
  {
    0 <= e.currentIdx < |e.questions|
  }

  function Current(e: Engine): Question
    requires InRange(e)
  {
    e.questions[e.currentIdx]
  }

  function LastIdx(e: Engine): int
  {
    |e.questions| - 1
  }

  /** The invariant every reachable engine keeps. */
  predicate Valid(e: Engine)
  {
    && InRange(e)
    // the countdown stays within the current question's limit
    && 0 <= e.questionTimer <= LimitOf(Current(e))
    // a countdown left at zero only ever sits on the last question
    && (e.questionTimer == 0 ==> e.showTimer && e.currentIdx == LastIdx(e))
    // at most one answer per question, each for a question of this session
    && UniqueIds(e.answers)
    && (forall i :: 0 <= i < |e.answers| ==>
          Scoring.HasId(e.questions, e.answers[i].questionId) && e.answers[i].timeTaken >= 0)
    // review marks are positions of the session
    && (forall p :: p in e.marked ==> 0 <= p < |e.questions|)
  }

  /** Mounting the component on a derived question sequence. */
  function Launch(category: string, questions: seq<Question>, showTimer: bool): (s: Screen)
    ensures s.NoContent? <==> |questions| == 0
    ensures s.Running? ==> Valid(s.engine) && s.engine.questions == questions
    ensures s.Running? ==> s.engine.currentIdx == 0 && s.engine.totalTimer == 0
    ensures s.Running? ==> s.engine.questionTimer == LimitOf(questions[0])
    ensures s.Running? ==> s.engine.answers == [] && s.engine.marked == {} && !s.engine.showConfirm
    ensures s.Running? ==> s.engine.category == category && s.engine.showTimer == showTimer
    ensures s.Running? ==> !s.engine.showHint && !s.engine.showNavGrid
  {
    if |questions| == 0 then NoContent
    else Running(Engine(
      category := category,
      questions := questions,
      showTimer := showTimer,
      currentIdx := 0,
      answers := [],
      marked := {},
      totalTimer := 0,
      questionTimer := LimitOf(questions[0]),
      showConfirm := false,
      showHint := false,
      showNavGrid := false))
  }

  /** Deriving the session and mounting the engine on it: the "no content"
      screen appears exactly when nothing is eligible or the limit is 0. */
  method StartQuiz(pool: seq<Question>, categories: seq<CategoryConfig>, category: string,
                   subTopic: string, settings: Settings)
    returns (s: Screen)
    ensures s.NoContent? <==>
      |SessionInit.FilterPool(pool, category, subTopic)| == 0 ||
      SessionInit.SizeLimit(categories, category, subTopic, settings) == 0
    ensures s.Running? ==> Valid(s.engine) && s.engine.currentIdx == 0 && s.engine.totalTimer == 0
    ensures s.Running? ==> forall q :: q in s.engine.questions ==>
      q in pool && SessionInit.Eligible(q, category, subTopic)
    ensures s.Running? ==> s.engine.category == category && s.engine.showTimer == settings.showTimer
    ensures s.Running? ==>
      && |s.engine.questions| ==
         SeqUtil.Min(|SessionInit.FilterPool(pool, category, subTopic)|,
                     SessionInit.SizeLimit(categories, category, subTopic, settings))
      && multiset(s.engine.questions) <= multiset(SessionInit.FilterPool(pool, category, subTopic))
  {
    var qs := SessionInit.DeriveSession(pool, categories, category, subTopic, settings);
    s := Launch(category, qs, settings.showTimer);
  }

  /** The sync effect of lines 75-77 applied at once: when a step moved the
      position, the countdown restarts from the new question's limit; a
      step that leaves the position alone leaves the countdown alone. */
  function Sync(before: Engine, after: Engine): (r: Engine)
    requires InRange(after)
    ensures r == after.(questionTimer := r.questionTimer)
    ensures after.currentIdx != before.currentIdx ==> r.questionTimer == LimitOf(Current(after))
    ensures after.currentIdx == before.currentIdx ==> r == after
  {
    if after.currentIdx != before.currentIdx then after.(questionTimer := LimitOf(Current(after)))
    else after
  }

  /** Every question answered in `before` is still answered in `after`. */
  ghost predicate AnswersKept(before: Engine, after: Engine)
  {
    forall id :: Find(before.answers, id).Some? ==> Find(after.answers, id).Some?
  }

  /** `handleSelect` (lines 79-95): record `opt` for the current question,
      with the time taken read off the countdown. */
  function Select(e: Engine, opt: Option<int>): (e': Engine)
    requires Valid(e)
    ensures Valid(e')
    ensures e' == e.(answers := e'.answers)
    ensures Find(e'.answers, Current(e).id) ==
      Some(UserAnswer(Current(e).id, opt, LimitOf(Current(e)) - e.questionTimer))
    ensures 0 <= LimitOf(Current(e)) - e.questionTimer <= LimitOf(Current(e))
    ensures |e'.answers| == |e.answers| + (if Find(e.answers, Current(e).id).None? then 1 else 0)
    ensures forall i :: 0 <= i < |e.answers| && e.answers[i].questionId != Current(e).id ==>
      e'.answers[i] == e.answers[i]
    ensures forall id :: id != Current(e).id ==> Find(e'.answers, id) == Find(e.answers, id)
    ensures AnswersKept(e, e')
  {
    var q := Current(e);
    var a := UserAnswer(q.id, opt, LimitOf(q) - e.questionTimer);
    var e' := e.(answers := Upsert(e.answers, a));
    assert forall i :: 0 <= i < |e'.answers| ==>
      Scoring.HasId(e.questions, e'.answers[i].questionId) && e'.answers[i].timeTaken >= 0 by {
      forall i | 0 <= i < |e'.answers|
        ensures Scoring.HasId(e.questions, e'.answers[i].questionId) && e'.answers[i].timeTaken >= 0
      {
        var x := e'.answers[i];
        assert x in e.answers || x == a;
        if x == a {
          assert e.questions[e.currentIdx].id == x.questionId;
        } else {
          var j :| 0 <= j < |e.answers| && e.answers[j] == x;
        }
      }
    }
    e'
  }

  /** `handleNext`'s own state change (lines 97-104), before any effect. */
  function NextHandler(e: Engine): (e': Engine)
    requires InRange(e)
    ensures InRange(e')
    ensures e'.questionTimer == e.questionTimer
    ensures e.currentIdx < LastIdx(e) ==> e'.currentIdx == e.currentIdx + 1 && !e'.showHint
    ensures e.currentIdx == LastIdx(e) ==> e' == e.(showConfirm := true)
    ensures e' == e.(currentIdx := e'.currentIdx, showHint := e'.showHint, showConfirm := e'.showConfirm)
  {
    if e.currentIdx < LastIdx(e) then e.(currentIdx := e.currentIdx + 1, showHint := false)
    else e.(showConfirm := true)
  }

  /** Next: below the last position it advances one place, clears the hint
      and re-arms the countdown; on the last position it asks for
      confirmation and stays put. */
  function Next(e: Engine): (e': Engine)
    requires InRange(e)
    ensures InRange(e')
    ensures e.currentIdx < LastIdx(e) ==>
      e' == e.(currentIdx := e.currentIdx + 1, showHint := false,
               questionTimer := LimitOf(e.questions[e.currentIdx + 1]))
    ensures e.currentIdx == LastIdx(e) ==> e' == e.(showConfirm := true)
    ensures Valid(e) ==> Valid(e')
  {
    Sync(e, NextHandler(e))
  }

  /** `handlePrev`'s own state change (lines 106-111). */
  function PrevHandler(e: Engine): (e': Engine)
    requires InRange(e)
    ensures InRange(e')
    ensures e'.questionTimer == e.questionTimer
    ensures e.currentIdx > 0 ==> e'.currentIdx == e.currentIdx - 1 && !e'.showHint
    ensures e.currentIdx == 0 ==> e' == e
    ensures e' == e.(currentIdx := e'.currentIdx, showHint := e'.showHint)
  {
    if e.currentIdx > 0 then e.(currentIdx := e.currentIdx - 1, showHint := false)
    else e
  }

  /** Prev: steps back one place when not on the first question (clearing
      the hint and re-arming the countdown); on the first it is a no-op. */
  function Prev(e: Engine): (e': Engine)
    requires Valid(e)
    ensures Valid(e')
    ensures e.currentIdx > 0 ==>
      e' == e.(currentIdx := e.currentIdx - 1, showHint := false,
               questionTimer := LimitOf(e.questions[e.currentIdx - 1]))
    ensures e.currentIdx == 0 ==> e' == e
  {
    Sync(e, PrevHandler(e))
  }

  /** `handleSkip` (lines 113-119): records an explicit "no selection" only
      when the current question has no answer yet, then behaves as Next. */
  function Skip(e: Engine): (e': Engine)
    requires Valid(e)
    ensures Valid(e')
    ensures Find(e.answers, Current(e).id).Some? ==> e'.answers == e.answers
    ensures Find(e.answers, Current(e).id).None? ==>
      e'.answers == e.answers + [UserAnswer(Current(e).id, None, LimitOf(Current(e)) - e.questionTimer)]
    ensures e' == Next(e).(answers := e'.answers)
    ensures AnswersKept(e, e')
  {
    var answered := if Find(e.answers, Current(e).id).None? then Select(e, None) else e;
    Next(answered)
  }

  /** `toggleMarkReview` (lines 121-126): flips the current position's
      membership in the review set and touches nothing else. */
  function ToggleReview(e: Engine): (e': Engine)
    requires Valid(e)
    ensures Valid(e')
    ensures e' == e.(marked := e'.marked)
    ensures e.currentIdx in e'.marked <==> e.currentIdx !in e.marked
    ensures forall p :: p != e.currentIdx ==> (p in e'.marked <==> p in e.marked)
  {
    if e.currentIdx in e.marked then e.(marked := e.marked - {e.currentIdx})
    else e.(marked := e.marked + {e.currentIdx})
  }

  /** `jumpToQuestion`'s own state change (lines 128-131). */
  function JumpHandler(e: Engine, idx: int): (e': Engine)
    requires 0 <= idx < |e.questions|
    ensures InRange(e')
    ensures e'.currentIdx == idx && !e'.showNavGrid
    ensures e'.questionTimer == e.questionTimer
    ensures e' == e.(currentIdx := e'.currentIdx, showNavGrid := e'.showNavGrid)
  {
    e.(currentIdx := idx, showNavGrid := false)
  }

  /** Jump to a grid position (the grid at lines 218-224 only offers the
      session's indices, and the source does no bounds check of its own).
      Jumping to the current position does not restart the countdown,
      since the position does not change. */
  function Jump(e: Engine, idx: int): (e': Engine)
    requires Valid(e)
    requires 0 <= idx < |e.questions|
    ensures Valid(e')
    ensures e'.currentIdx == idx && !e'.showNavGrid
    ensures idx != e.currentIdx ==> e'.questionTimer == LimitOf(e.questions[idx])
    ensures idx == e.currentIdx ==> e'.questionTimer == e.questionTimer
    ensures e' == e.(currentIdx := idx, showNavGrid := false, questionTimer := e'.questionTimer)
  {
    Sync(e, JumpHandler(e, idx))
  }

  /** Per-question expiry (lines 65-71): advance when not on the last
      question, otherwise ask for confirmation. */
  function Expire(e: Engine): (e': Engine)
    requires InRange(e)
    ensures InRange(e')
    ensures e.currentIdx < LastIdx(e) ==>
      e' == e.(currentIdx := e.currentIdx + 1, showHint := false,
               questionTimer := LimitOf(e.questions[e.currentIdx + 1]))
    ensures e.currentIdx == LastIdx(e) ==> e' == e.(showConfirm := true)
  {
    if e.currentIdx != LastIdx(e) then Next(e) else e.(showConfirm := true)
  }

  /** One second of both intervals (lines 53-77). The global clock always
      counts; the countdown moves only while the timer is shown and above
      zero; reaching zero expires the question once, and a countdown
      already at zero stays there without expiring again. */
  function Tick(e: Engine): (e': Engine)
    requires Valid(e)
    ensures Valid(e')
    ensures e'.totalTimer == e.totalTimer + 1
    ensures e'.questions == e.questions && e'.answers == e.answers && e'.marked == e.marked
    ensures !e.showTimer || e.questionTimer == 0 ==> e' == e.(totalTimer := e.totalTimer + 1)
    ensures e.showTimer && e.questionTimer > 1 ==>
      e' == e.(totalTimer := e.totalTimer + 1, questionTimer := e.questionTimer - 1)
    ensures e.showTimer && e.questionTimer == 1 && e.currentIdx < LastIdx(e) ==>
      e' == e.(totalTimer := e.totalTimer + 1, currentIdx := e.currentIdx + 1, showHint := false,
               questionTimer := LimitOf(e.questions[e.currentIdx + 1]))
    ensures e.showTimer && e.questionTimer == 1 && e.currentIdx == LastIdx(e) ==>
      e' == e.(totalTimer := e.totalTimer + 1, questionTimer := 0, showConfirm := true)
  {
    var counted := e.(totalTimer := e.totalTimer + 1);
    if e.showTimer && e.questionTimer > 0 then
      var down := counted.(questionTimer := e.questionTimer - 1);
      if down.questionTimer == 0 then Expire(down) else down
    else counted
  }

  /** The header's Submit/Finish button (line 202). */
  function RequestSubmit(e: Engine): (e': Engine)
    ensures Valid(e) ==> Valid(e')
    ensures e' == e.(showConfirm := true)
  {
    e.(showConfirm := true)
  }

  /** The dialog's "Go Back" button (line 364). */
  function CancelSubmit(e: Engine): (e': Engine)
    ensures Valid(e) ==> Valid(e')
    ensures e' == e.(showConfirm := false)
  {
    e.(showConfirm := false)
  }

  /** The Hint button (line 305). */
  function ToggleHint(e: Engine): (e': Engine)
    ensures Valid(e) ==> Valid(e')
    ensures e' == e.(showHint := !e.showHint)
  {
    e.(showHint := !e.showHint)
  }

  /** The question-map button (line 193). */
  function ToggleNavGrid(e: Engine): (e': Engine)
    ensures Valid(e) ==> Valid(e')
    ensures e' == e.(showNavGrid := !e.showNavGrid)
  {
    e.(showNavGrid := !e.showNavGrid)
  }

  /** The question map's close button (line 215): the map is hidden and
      nothing else changes. */
  function CloseNavGrid(e: Engine): (e': Engine)
    ensures Valid(e) ==> Valid(e')
    ensures !e'.showNavGrid
    ensures e' == e.(showNavGrid := e'.showNavGrid)
  {
    e.(showNavGrid := false)
  }

  /** Closing the map undoes opening it, and closing twice is closing once. */
  lemma CloseNavGridUndoesToggle(e: Engine)
    ensures !e.showNavGrid ==> CloseNavGrid(ToggleNavGrid(e)) == e
    ensures CloseNavGrid(CloseNavGrid(e)) == CloseNavGrid(e)
  {
  }

  /** `submitQuiz`: the result depends on the questions, the answers and
      the global clock only. */
  function Submit(e: Engine): (r: QuizResult)
    ensures r.correctCount + r.wrongCount + r.skippedCount == r.totalQuestions == |e.questions|
    ensures r.score == Scoring.PointsPerCorrect * r.correctCount
    ensures r.timeSpent == e.totalTimer && r.answers == e.answers && r.category == e.category
  {
    Scoring.Result(e.category, e.questions, e.answers, e.totalTimer)
  }

  /** Toggling review twice restores the marks, and marks never reach the
      result. */
  lemma ToggleReviewTwice(e: Engine)
    requires Valid(e)
    ensures ToggleReview(ToggleReview(e)) == e
    ensures Submit(ToggleReview(e)) == Submit(e)
  {
  }

  /** Selecting twice on the same question keeps only the later choice. */
  lemma LastSelectionWins(e: Engine, first: Option<int>, second: Option<int>)
    requires Valid(e)
    ensures var e2 := Select(Select(e, first), second);
      Find(e2.answers, Current(e).id).Some? &&
      Find(e2.answers, Current(e).id).value.selected == second &&
      |e2.answers| == |Select(e, first).answers|
  {
  }

  /** The user actions and the clock, as a driver for whole sessions. */
  datatype Action =
    | Choose(opt: Option<int>)
    | GoNext
    | GoPrev
    | SkipQuestion
    | ToggleMark
    | JumpTo(target: int)
    | FlipHint
    | FlipNavGrid
    | HideNavGrid
    | OpenConfirm
    | CloseConfirm
    | ClockTick

  /** One action. A jump target outside the session (which the grid never
      offers) is refused and leaves the state unchanged. */
  function Step(e: Engine, act: Action): (e': Engine)
    requires Valid(e)
    ensures Valid(e')
    ensures e'.questions == e.questions && e'.category == e.category && e'.showTimer == e.showTimer
    ensures e'.totalTimer == e.totalTimer + (if act.ClockTick? then 1 else 0)
    ensures AnswersKept(e, e')
  {
    match act
    case Choose(opt) => Select(e, opt)
    case GoNext => Next(e)
    case GoPrev => Prev(e)
    case SkipQuestion => Skip(e)
    case ToggleMark => ToggleReview(e)
    case JumpTo(idx) => if 0 <= idx < |e.questions| then Jump(e, idx) else e
    case FlipHint => ToggleHint(e)
    case FlipNavGrid => ToggleNavGrid(e)
    case HideNavGrid => CloseNavGrid(e)
    case OpenConfirm => RequestSubmit(e)
    case CloseConfirm => CancelSubmit(e)
    case ClockTick => Tick(e)
  }

  function Ticks(acts: seq<Action>): nat
  {
    if |acts| == 0 then 0 else (if acts[0].ClockTick? then 1 else 0) + Ticks(acts[1..])
  }

  /** A whole session: validity holds throughout, the question sequence is
      frozen, the global clock equals the ticks seen, and a question once
      answered stays answered. */
  function Run(e: Engine, acts: seq<Action>): (e': Engine)
    requires Valid(e)
    ensures Valid(e')
    ensures e'.questions == e.questions && e'.category == e.category && e'.showTimer == e.showTimer
    ensures e'.totalTimer == e.totalTimer + Ticks(acts)
    ensures AnswersKept(e, e')
    decreases |acts|
  {
    if |acts| == 0 then e else Run(Step(e, acts[0]), acts[1..])
  }

  /** From launch, the reported time is the number of clock ticks and the
      tallies partition the session. */
  lemma SessionResult(category: string, questions: seq<Question>, showTimer: bool, acts: seq<Action>)
    requires |questions| > 0
    ensures var r := Submit(Run(Launch(category, questions, showTimer).engine, acts));
      r.timeSpent == Ticks(acts) && r.totalQuestions == |questions| &&
      r.correctCount + r.wrongCount + r.skippedCount == |questions|
  {
  }

  /** The confirmation dialog's "attempted" figure agrees with the result's
      correct plus wrong tallies when question identities are distinct. */
  lemma AttemptedMatchesResult(e: Engine)
    requires Valid(e)
    requires Scoring.DistinctIds(e.questions)
    ensures Attempted(e.answers) == Submit(e).correctCount + Submit(e).wrongCount
  {
    Scoring.AttemptedIsCorrectPlusWrong(e.questions, e.answers);
  }
}
