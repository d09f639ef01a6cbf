/** The result screen (components/QuizSummary.tsx): the pie slices, the
    answer review, the time display and the trimmed AI report. */
module QuizSummary {
  import opened QuizTypes
  import opened Answers
  import opened SeqUtil
  import SessionInit
  import Scoring

  /** One slice of the pie chart (colours are presentation only). */
  datatype Slice = Slice(name: string, value: nat)

  /** `data` (lines 20-24). */
  function PieData(r: QuizResult): (d: seq<Slice>)
    ensures |d| == 3
  {
    [Slice("Correct", r.correctCount), Slice("Wrong", r.wrongCount), Slice("Skipped", r.skippedCount)]
  }

  /** For a result the engine produced, the slices are correct, wrong and
      skipped in that order and together cover every session question. */
  lemma PieCoversSession(category: string, qs: seq<Question>, answers: seq<UserAnswer>, totalTimer: nat)
    ensures var d := PieData(Scoring.Result(category, qs, answers, totalTimer));
      d[0] == Slice("Correct", Scoring.Tally(qs, answers, Scoring.Correct)) &&
      d[1] == Slice("Wrong", Scoring.Tally(qs, answers, Scoring.Wrong)) &&
      d[2] == Slice("Skipped", Scoring.Tally(qs, answers, Scoring.Skipped)) &&
      d[0].value + d[1].value + d[2].value == |qs|
  {
  }

  /** `relevantQuestions` (line 26): the whole pool of the result's
      category, not only the questions the session drew. */
  function RelevantQuestions(pool: seq<Question>, category: string): (r: seq<Question>)
    ensures forall q :: q in r <==> q in pool && SessionInit.InChosenCategory(q, category)
  {
    Filter(pool, (q: Question) => SessionInit.InChosenCategory(q, category))
  }

  /** The review keeps every occurrence of each question of the category,
      in pool order (line 57 numbers them in that order). */
  lemma RelevantQuestionsExact(pool: seq<Question>, category: string)
    ensures var r := RelevantQuestions(pool, category);
      forall q :: multiset(r)[q] == (if SessionInit.InChosenCategory(q, category) then multiset(pool)[q] else 0)
    ensures IsSubsequence(RelevantQuestions(pool, category), pool)
  {
    FilterExact(pool, (q: Question) => SessionInit.InChosenCategory(q, category));
  }

  /** Every question a session on `category` could draw appears in the
      review of its result. */
  lemma SessionQuestionsAreReviewed(pool: seq<Question>, category: string, subTopic: string)
    ensures forall q :: q in SessionInit.FilterPool(pool, category, subTopic) ==>
      q in RelevantQuestions(pool, category)
  {
  }

  /** Review status of one question (lines 46-54): correct is tested first,
      then "absent or null" as skipped, and anything else is wrong. */
  function ReviewStatus(q: Question, answers: seq<UserAnswer>): (v: Scoring.Verdict)
    ensures v == Scoring.Skipped <==> SelectedIndex(q, answers).None?
    ensures v == Scoring.Correct <==> SelectedIndex(q, answers) == Some(q.correctAnswer)
  {
    var ua := Find(answers, q.id);
    var isCorrect := ua.Some? && ua.value.selected == Some(q.correctAnswer);
    var isSkipped := ua.None? || ua.value.selected.None?;
    if isCorrect then Scoring.Correct
    else if isSkipped then Scoring.Skipped
    else Scoring.Wrong
  }

  /** The review's order of tests and the engine's classification agree on
      every question. */
  lemma ReviewAgreesWithScoring(q: Question, answers: seq<UserAnswer>)
    ensures ReviewStatus(q, answers) == Scoring.Classify(q, answers)
  {
  }

  /** The selection recorded for `q`, if any. */
  function SelectedIndex(q: Question, answers: seq<UserAnswer>): Option<int>
  {
    match Find(answers, q.id)
    case None => None
    case Some(a) => a.selected
  }

  datatype Highlight = Green | Red | Plain

  /** How one option is drawn: its colour and its CORRECT / YOURS badges. */
  datatype OptionView = OptionView(highlight: Highlight, correctBadge: bool, yoursBadge: bool)

  /** Lines 59-68 for the option at index `i`. */
  function ViewOption(q: Question, sel: Option<int>, i: int): OptionView
  {
    var mine := sel == Some(i);
    OptionView(
      highlight := if i == q.correctAnswer then Green else if mine then Red else Plain,
      correctBadge := i == q.correctAnswer,
      yoursBadge := mine && i != q.correctAnswer)
  }

  /** The options of one reviewed question: the correct option alone is
      green and badged CORRECT; the user's option is red and badged YOURS
      exactly when it is not the correct one. */
  function OptionViews(q: Question, answers: seq<UserAnswer>): (vs: seq<OptionView>)
    ensures |vs| == |q.options|
    ensures forall i :: 0 <= i < |vs| ==> (vs[i].correctBadge <==> i == q.correctAnswer)
    ensures forall i :: 0 <= i < |vs| ==>
      (vs[i].yoursBadge <==> SelectedIndex(q, answers) == Some(i) && i != q.correctAnswer)
    ensures forall i :: 0 <= i < |vs| ==> (vs[i].highlight == Green <==> vs[i].correctBadge)
    ensures forall i :: 0 <= i < |vs| ==> (vs[i].highlight == Red <==> vs[i].yoursBadge)
  {
    var sel := SelectedIndex(q, answers);
    seq(|q.options|, i requires 0 <= i < |q.options| => ViewOption(q, sel, i))
  }

  /** The CORRECT flags of the options, for counting. */
  function CorrectBadges(vs: seq<OptionView>): seq<bool>
  {
    seq(|vs|, i requires 0 <= i < |vs| => vs[i].correctBadge)
  }

  /** The YOURS flags of the options, for counting. */
  function YoursBadges(vs: seq<OptionView>): seq<bool>
  {
    seq(|vs|, i requires 0 <= i < |vs| => vs[i].yoursBadge)
  }

  /** Exactly one CORRECT badge when `correctAnswer` indexes the options,
      none otherwise; at most one YOURS badge, present exactly when the
      user chose an existing option other than the correct one. */
  lemma BadgeCounts(q: Question, answers: seq<UserAnswer>)
    ensures 0 <= q.correctAnswer < |q.options| ==> CountTrue(CorrectBadges(OptionViews(q, answers))) == 1
    ensures !(0 <= q.correctAnswer < |q.options|) ==> CountTrue(CorrectBadges(OptionViews(q, answers))) == 0
    ensures CountTrue(YoursBadges(OptionViews(q, answers))) <= 1
    ensures CountTrue(YoursBadges(OptionViews(q, answers))) == 1 <==>
      var sel := SelectedIndex(q, answers);
      sel.Some? && 0 <= sel.value < |q.options| && sel.value != q.correctAnswer
  {
    var vs := OptionViews(q, answers);
    var cs := CorrectBadges(vs);
    var ys := YoursBadges(vs);
    if 0 <= q.correctAnswer < |q.options| {
      CountTrueExactlyOne(cs, q.correctAnswer);
    } else {
      CountTrueNone(cs);
    }
    var sel := SelectedIndex(q, answers);
    if sel.Some? && 0 <= sel.value < |q.options| && sel.value != q.correctAnswer {
      CountTrueExactlyOne(ys, sel.value);
    } else {
      CountTrueNone(ys);
    }
  }

  /** Line 143: `Math.floor(t / 60)` minutes and `t % 60` seconds; with a
      non-negative time both agree with Euclidean division. */
  function MinutesSeconds(timeSpent: nat): (ms: (nat, nat))
    ensures 60 * ms.0 + ms.1 == timeSpent
    ensures ms.1 < 60
  {
    (timeSpent / 60, timeSpent % 60)
  }

  /** The narrative report's lists (the report service is not modelled). */
  datatype AIReport = AIReport(strengths: seq<string>, actionPlan: seq<string>, motivationalMessage: string)

  /** `.slice(0, 2)` (lines 169 and 175): the first two entries, or all
      of them when there are fewer. */
  function FirstTwo(xs: seq<string>): (r: seq<string>)
    ensures |r| == Min(2, |xs|)
    ensures r <= xs
  {
    if |xs| <= 2 then xs else xs[..2]
  }

  /** What the report panel lists: prefixes of the report's strengths and
      action plan, two entries each at most. */
  function ShownReport(rep: AIReport): (shown: (seq<string>, seq<string>))
    ensures shown.0 <= rep.strengths && |shown.0| <= 2
    ensures shown.1 <= rep.actionPlan && |shown.1| <= 2
    ensures |rep.strengths| >= 2 ==> |shown.0| == 2
    ensures |rep.actionPlan| >= 2 ==> |shown.1| == 2
  {
    (FirstTwo(rep.strengths), FirstTwo(rep.actionPlan))
  }
}
