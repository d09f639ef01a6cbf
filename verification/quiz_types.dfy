/** The records the quiz screens share (the application's `types` module,
    as the engine, the summary and the dashboard use them).

    The source's optional fields are encoded by their falsy value: an absent
    sub-topic (`type`) is `""`, an absent per-question `timeLimit` is `0`, an
    absent `maxQuestions` is `0`. `timeLimit` and `maxQuestions` are read
    only through `||` and `type` through a truthiness test, which treat an
    absent field and its falsy value alike; `type` is otherwise compared
    with `===` only against a chosen sub-topic, which is never empty, so a
    question without one matches under neither encoding.
    Prompt, explanation, difficulty and hint texts are display-only and not
    modelled. */
module QuizTypes {

  datatype Option<+T> = None | Some(value: T)

  /** Countdown, in seconds, for a question without its own limit. */
  const DefaultTimeLimit: nat := 30

  /** Session cap when a sub-topic was chosen. */
  const SubTopicCap: nat := 50

  datatype Question = Question(
    id: string,
    category: string,
    subTopic: string,
    options: seq<string>,
    correctAnswer: int,
    timeLimit: nat)

  /** `timeLimit || 30`: the countdown a question starts from. */
  function LimitOf(q: Question): (r: nat)
    ensures r > 0
    ensures q.timeLimit > 0 ==> r == q.timeLimit
    ensures q.timeLimit == 0 ==> r == DefaultTimeLimit
  {
    if q.timeLimit == 0 then DefaultTimeLimit else q.timeLimit
  }

  /** One recorded answer; `selected == None` is the explicit `null`
      ("no selection") that a skip records. */
  datatype UserAnswer = UserAnswer(questionId: string, selected: Option<int>, timeTaken: int)

  /** The record handed to `onComplete`. The random `id` and the ISO date
      are not modelled. */
  datatype QuizResult = QuizResult(
    quizId: string,
    category: string,
    score: nat,
    totalQuestions: nat,
    correctCount: nat,
    wrongCount: nat,
    skippedCount: nat,
    timeSpent: nat,
    answers: seq<UserAnswer>)

  datatype Settings = Settings(questionsPerQuiz: nat, showTimer: bool)

  datatype CategoryConfig = CategoryConfig(id: string, maxQuestions: nat)
}
