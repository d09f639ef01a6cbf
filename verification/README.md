# Quiz session engine — Dafny model

This project models the quiz session engine of a timed multiple-choice practice app (a React/TypeScript
application), together with two small screens that share its data. It is a functional model: immutable
records and pure step functions, with the invariants proved about them.

- **Session derivation** (`SessionInit`). A session filters the question pool by category, where `"all"`
  matches every question. When a sub-topic is chosen, it also filters by that sub-topic. It then picks a
  size limit, shuffles, and truncates to the limit. The shuffle is modelled as some permutation, chosen
  freely.
- **Engine** (`QuizEngine`). The engine state holds:
  - the current position;
  - the answer list, keyed by question identity with insert-or-replace updates;
  - the review marks;
  - a global clock and a per-question countdown;
  - the confirmation, hint and question-map flags.

  Select, Next, Prev, Skip, toggle-review and Jump are step functions. `Tick` is one second of both
  clocks. Moving to a new position re-arms the countdown in the same step. An empty session is modelled
  as a separate "no content" outcome with no engine state. The hidden intervals the source still runs
  behind that screen are listed under "## Left out".
- **Timer scheduling as written** (`TimerEffects`). This module shows how the source's deferred effects
  really interleave, render by render. It is the as-written half of the finding below.
- **Scoring** (`Scoring`). Each session question is classified as correct, wrong or skipped, and the
  score is 2 per correct answer.
- **Result screen** (`QuizSummary`). It covers the pie counts, the review list and per-option badges,
  the minutes:seconds display, and the two-item prefixes of the report lists.
- **Dashboard** (`Dashboard`). It covers sub-topic discovery in first-appearance order, the per-topic
  counts, and the category/sub-topic picker.

Optional source fields are encoded by their falsy value:
- an absent sub-topic (`type`) is `""`;
- an absent `timeLimit` is `0`;
- an absent `maxQuestions` is `0`.

`timeLimit` and `maxQuestions` are read only through `||`, and `type` through a truthiness test
(Dashboard.tsx:33), so there an absent field and its falsy value behave the same. `type` is also compared
with `===` against a chosen sub-topic (QuizEngine.tsx:26, Dashboard.tsx:179). That sub-topic is always
non-empty: the engine compares only when one is given, and the dashboard offers only collected,
non-empty sub-topics. So a question without a `type` matches no chosen sub-topic under either
encoding. The source's `types.ts` is not part of this model; the record fields follow
their uses in the three components.

Notes on the code's behaviour:
- When the countdown expires below the last question, the code calls `handleNext`, not `handleSkip`. No
  "no selection" answer is recorded.
- `jumpToQuestion` does no bounds check. `Jump` therefore requires a valid index, which is what the
  question grid passes. The whole-session driver `Step` ignores any other target.
- Confirmation is a plain flag (`showConfirm`), not a separate state. Both clocks keep running while the
  dialog is open.
- A category whose id is the empty string and whose questions carry sub-topics records the picker state
  on click, but the picker does not render (Dashboard.tsx:147 tests the id for truthiness), so no
  session can be started from it.
- The shuffle is `sort(() => Math.random() - 0.5)`, which is not uniform. The model claims only that the
  result is a permutation.

## Model

| member | source | states |
|---|---|---|
| `QuizTypes.LimitOf` | components/QuizEngine.tsx:81 | a question's countdown is its own limit when it has one, else exactly 30 seconds; never 0 |
| `SessionInit.FilterPool` | components/QuizEngine.tsx:22-27 | a question is a candidate exactly when it is in the pool, its category matches (or the category is "all"), and its sub-topic equals the chosen one when one is given |
| `SessionInit.FilterPoolExact` | components/QuizEngine.tsx:22-27 | the candidates keep every occurrence of each eligible pool entry and none of the others, in pool order, so their number is fixed by the pool |
| `SessionInit.FilterPoolIsFilter` | components/QuizEngine.tsx:22-27 | the category filter followed by the sub-topic filter is one filter by eligibility |
| `SessionInit.SizeLimit` | components/QuizEngine.tsx:20 | a sub-topic session is capped at 50; otherwise the first entry with that id decides: its positive `maxQuestions` applies, and the global `questionsPerQuiz` applies when there is no such entry or its `maxQuestions` is 0 (even if a later duplicate has a positive one) |
| `SessionInit.FindCategory` | components/QuizEngine.tsx:18 | returns the first configuration entry with the requested id, and none only when no entry has that id |
| `SessionInit.Shuffle` | components/QuizEngine.tsx:30 | the shuffled sequence is a permutation of the candidates (same multiset) |
| `SessionInit.DeriveSession` | components/QuizEngine.tsx:17-31 | the session has `min(#candidates, limit)` questions, each an eligible pool question, none occurring more often than among the candidates; the limit is 50 with a sub-topic, else the category's `maxQuestions` or the global `questionsPerQuiz` |
| `QuizEngine.StartQuiz` | components/QuizEngine.tsx:17-31 | the "no content" screen appears exactly when nothing is eligible or the limit is 0; otherwise the engine starts valid at position 0 with the clock at 0, for the chosen category and timer setting, on exactly min(candidates, limit) questions drawn without repetition from the candidates |
| `QuizEngine.Launch` | components/QuizEngine.tsx:160-169 | an empty question sequence yields the no-content outcome, with no engine state; a non-empty one starts valid at position 0 with a full countdown, no answers, no marks, no dialog, hint or map open, and the given category and timer setting |
| `Answers.FindIndex` | components/QuizEngine.tsx:80 | returns the first position answering the question, or -1 exactly when no entry answers it |
| `Answers.Find` | components/QuizEngine.tsx:114 | finds an answer exactly when some entry carries the question's id, and the one found is the first such entry |
| `Answers.Upsert` | components/QuizEngine.tsx:88-94 | afterwards the question's answer is the new one; answers to other questions are unchanged in value and position; the list grows by one only when the question had no answer; one answer per question is preserved |
| `Answers.FindSnoc` | components/QuizEngine.tsx:93 | appending an answer changes lookups only for a question that had no answer before |
| `Answers.Attempted` | components/QuizEngine.tsx:360 | the attempted figure never exceeds the number of answers and is 0 exactly when no answer carries a selection |
| `Answers.AttemptedSnoc` | components/QuizEngine.tsx:360 | appending an answer raises the attempted figure by one exactly when the answer carries a selection |
| `QuizEngine.Sync` | components/QuizEngine.tsx:74-77 | a step that moves the position re-arms the countdown from the new question's limit; a step that does not move it leaves the countdown alone |
| `QuizEngine.Select` | components/QuizEngine.tsx:79-95 | the current question then has exactly one answer, with the chosen option and time taken = limit − remaining, which lies in [0, limit]; other answers keep their positions and values; the list grows only if no answer existed; nothing else in the state changes |
| `QuizEngine.LastSelectionWins` | components/QuizEngine.tsx:79-95 | selecting twice on one question leaves only the later selection and does not grow the list a second time |
| `QuizEngine.NextHandler` | components/QuizEngine.tsx:97-104 | `handleNext` alone: moves forward one and clears the hint below the last position, otherwise only raises the confirmation; the countdown is left as it was (its re-arm is a later effect) |
| `QuizEngine.Next` | components/QuizEngine.tsx:97-104 | below the last position: moves forward one, clears the hint, re-arms the countdown; at the last position: only raises the confirmation; validity is kept |
| `QuizEngine.PrevHandler` | components/QuizEngine.tsx:106-111 | `handlePrev` alone: moves back one and clears the hint above position 0, otherwise changes nothing; the countdown is left as it was |
| `QuizEngine.Prev` | components/QuizEngine.tsx:106-111 | above position 0: moves back one, clears the hint, re-arms the countdown; at position 0 it is a no-op; validity is kept |
| `QuizEngine.Skip` | components/QuizEngine.tsx:113-119 | never overwrites an existing answer; appends a "no selection" answer only when the question had none; otherwise it behaves as Next |
| `QuizEngine.ToggleReview` | components/QuizEngine.tsx:121-126 | flips only the current position's review mark; everything else is unchanged |
| `QuizEngine.ToggleReviewTwice` | components/QuizEngine.tsx:121-126 | toggling twice restores the engine exactly, and the marks never affect the submitted result |
| `QuizEngine.JumpHandler` | components/QuizEngine.tsx:128-131 | `jumpToQuestion` alone: sets the position and closes the grid, leaving the countdown and everything else as they were |
| `QuizEngine.Jump` | components/QuizEngine.tsx:128-131 | lands on the requested grid index and closes the grid; the countdown re-arms only if the position actually changed; nothing else in the state changes |
| `QuizEngine.Expire` | components/QuizEngine.tsx:65-71 | expiry below the last question advances one position with a re-armed countdown; below the last question it also clears the hint and changes nothing else (in particular it records no answer); on the last it only raises the confirmation |
| `QuizEngine.Tick` | components/QuizEngine.tsx:52-72 | the global clock goes up by exactly 1; the countdown goes down by 1 only while shown and above 0, so it stays within [0, limit]; reaching 0 below the last question advances exactly one position, clears the hint and re-arms for the new question, changing nothing else; reaching 0 on the last question raises confirmation once; a countdown already at 0 never expires again |
| `QuizEngine.RequestSubmit` | components/QuizEngine.tsx:202 | opening the confirmation keeps the engine valid and changes only that flag |
| `QuizEngine.CancelSubmit` | components/QuizEngine.tsx:364 | going back from the confirmation keeps the engine valid and changes only that flag |
| `QuizEngine.ToggleHint` | components/QuizEngine.tsx:305 | the hint button keeps the engine valid and flips only the hint flag |
| `QuizEngine.ToggleNavGrid` | components/QuizEngine.tsx:193 | the question-map button keeps the engine valid and flips only the grid flag |
| `QuizEngine.CloseNavGrid` | components/QuizEngine.tsx:215 | the map's close button keeps the engine valid, hides the map and changes nothing else |
| `QuizEngine.CloseNavGridUndoesToggle` | components/QuizEngine.tsx:193-215 | closing the map right after opening it restores the engine, and closing is idempotent |
| `QuizEngine.Submit` | components/QuizEngine.tsx:133-158 | correct + wrong + skipped = number of session questions; score = 2 × correct; time spent = global clock; the answers are passed through |
| `QuizEngine.Step` | components/QuizEngine.tsx:97-131 | every action keeps the engine valid, keeps the question sequence, the category and the timer setting fixed, advances the clock only on a tick, and never withdraws an answer |
| `QuizEngine.Run` | components/QuizEngine.tsx:53-56 | over any action sequence: validity holds throughout, the sequence, the category and the timer setting stay fixed, the global clock equals the number of ticks, and answered questions stay answered |
| `QuizEngine.SessionResult` | components/QuizEngine.tsx:145-157 | from launch, the reported time equals the number of ticks and the three counts partition the session |
| `QuizEngine.AttemptedMatchesResult` | components/QuizEngine.tsx:360 | with distinct question ids, the dialog's "attempted" figure equals the result's correct + wrong |
| `Scoring.Result` | components/QuizEngine.tsx:133-158 | the counts are the per-verdict tallies over the session and sum to its length; score = 2 × correct; category, time and answers are those of the session |
| `Scoring.Classify` | components/QuizEngine.tsx:139-142 | a question is skipped exactly when its first answer is missing or has no selection, and correct exactly when that answer selects `correctAnswer`; otherwise wrong |
| `Scoring.Tally` | components/QuizEngine.tsx:138-143 | a verdict's count never exceeds the number of session questions |
| `Scoring.TallyZero` | components/QuizEngine.tsx:138-143 | a verdict's count is 0 exactly when no session question receives that verdict |
| `Scoring.SubmitQuiz` | components/QuizEngine.tsx:134-143 | the counting loop produces exactly the result record defined by the tallies |
| `Scoring.TallyPartition` | components/QuizEngine.tsx:138-143 | every question lands in exactly one of correct, wrong and skipped |
| `Scoring.NoAnswersAllSkipped` | components/QuizEngine.tsx:138-143 | with no answers, every question is skipped and correct = wrong = 0 |
| `Scoring.SkippedSnocForeign` | components/QuizEngine.tsx:139 | an answer to a question outside the session leaves the skipped tally unchanged |
| `Scoring.SkippedSnoc` | components/QuizEngine.tsx:139-140 | the first answer to a session question removes one skip exactly when it carries a selection |
| `Scoring.AttemptedIsCorrectPlusWrong` | components/QuizEngine.tsx:360 | the count of answers with a selection equals correct + wrong, given distinct question ids and one answer per question, all for session questions |
| `TimerEffects.Commit` | components/QuizEngine.tsx:59-77 | one commit's effects (countdown expiry, then the position sync) keep the position within the session |
| `TimerEffects.Settle` | components/QuizEngine.tsx:59-77 | the render cascade keeps the position within the session and the questions fixed |
| `TimerEffects.TickAsWritten` | components/QuizEngine.tsx:53-77 | one second as the source schedules it keeps the position within the session |
| `TimerEffects.PrevAsWritten` | components/QuizEngine.tsx:106-111 | Prev as the source schedules it keeps the position within the session |
| `TimerEffects.JumpAsWritten` | components/QuizEngine.tsx:128-131 | a grid jump as the source schedules it keeps the position within the session |
| `TimerEffects.TickAgreesExceptOnAdvance` | components/QuizEngine.tsx:53-77 | the source's schedule and the atomic `Tick` agree exactly, except when an expiry should advance |
| `TimerEffects.PrevAgreesExceptAfterLastExpiry` | components/QuizEngine.tsx:59-77 | the source's Prev and the atomic `Prev` agree exactly unless the countdown sits at 0 on the last of several questions |
| `TimerEffects.JumpAgreesExceptAfterLastExpiry` | components/QuizEngine.tsx:59-77 | the source's grid jump and the atomic `Jump` agree exactly unless the countdown sits at 0 and the target is below the last question |
| `TimerEffects.ExpiryAdvancesTwice` | components/QuizEngine.tsx:59-77 | in the source, expiry below the last question moves two positions (or reaches the last with the dialog raised); `Tick` moves one |
| `TimerEffects.PrevBouncesAfterLastExpiry` | components/QuizEngine.tsx:59-72 | after expiry on the last question, Prev in the source returns to the last question; `Prev` steps back |
| `TimerEffects.JumpBouncesAfterLastExpiry` | components/QuizEngine.tsx:59-72 | after expiry on the last question, a grid jump to an earlier question lands one further on in the source; `Jump` lands where asked |
| `QuizSummary.PieData` | components/QuizSummary.tsx:20-24 | the chart always has three slices |
| `QuizSummary.PieCoversSession` | components/QuizSummary.tsx:20-24 | for an engine result, the slices are correct, wrong and skipped, in that order, and together cover every session question |
| `QuizSummary.RelevantQuestions` | components/QuizSummary.tsx:26 | the review lists every pool question of the result's category (all of them for "all"), not only the session's |
| `QuizSummary.RelevantQuestionsExact` | components/QuizSummary.tsx:26 | the review keeps every occurrence of each question of the category and no other, in pool order |
| `QuizSummary.SessionQuestionsAreReviewed` | components/QuizSummary.tsx:26 | every question a session could draw appears in the review |
| `QuizSummary.ReviewStatus` | components/QuizSummary.tsx:46-54 | a reviewed question shows as skipped exactly when no selection is recorded for it, and as correct exactly when the recorded selection is `correctAnswer` |
| `QuizSummary.ReviewAgreesWithScoring` | components/QuizSummary.tsx:46-54 | the review's order of checks (correct, then absent/null = skipped, else wrong) gives the engine's verdict for every question |
| `QuizSummary.OptionViews` | components/QuizSummary.tsx:59-68 | an option has the CORRECT badge (and is green) exactly at `correctAnswer`; it has the YOURS badge (and is red) exactly at the user's selection when that differs from `correctAnswer` |
| `QuizSummary.BadgeCounts` | components/QuizSummary.tsx:60-67 | exactly one CORRECT badge when `correctAnswer` indexes an option, else none; at most one YOURS badge, present exactly when an existing option other than the correct one was chosen |
| `QuizSummary.MinutesSeconds` | components/QuizSummary.tsx:143 | the display splits the time so that 60·m + s = time spent and 0 ≤ s < 60 |
| `QuizSummary.FirstTwo` | components/QuizSummary.tsx:169 | the listed entries are a prefix of the report list, of length min(2, length) |
| `QuizSummary.ShownReport` | components/QuizSummary.tsx:166-176 | strengths and action plan are shown as prefixes of at most two entries, and exactly two whenever the report has two or more |
| `Dashboard.CategoryQuestions` | components/Dashboard.tsx:30 | holds exactly the pool questions whose category equals the id |
| `Dashboard.CategoryQuestionsExact` | components/Dashboard.tsx:30 | every occurrence of each question of the category, none of the others, in catalogue order |
| `Dashboard.CategoryCount` | components/Dashboard.tsx:96 | the card's count is at most the catalogue size and is 0 exactly when the category has no question |
| `Dashboard.FirstIndex` | components/Dashboard.tsx:32-34 | finds the first question with the sub-topic, and no earlier question has it |
| `Dashboard.FirstIndexPrefix` | components/Dashboard.tsx:32-34 | a first occurrence found before the last question is unaffected by that question |
| `Dashboard.SubTopicsInOrder` | components/Dashboard.tsx:31-35 | at most one topic per question, never the empty topic |
| `Dashboard.SubTopicsMembers` | components/Dashboard.tsx:31-35 | a topic is collected exactly when some question carries it and it is non-empty |
| `Dashboard.SubTopicsNoDup` | components/Dashboard.tsx:31-35 | the collected topics never repeat |
| `Dashboard.SubTopicsOrder` | components/Dashboard.tsx:31-35 | the collected topics are in order of their first appearance |
| `Dashboard.TypesForCategory` | components/Dashboard.tsx:29-36 | no duplicates; a string is returned exactly when it is the non-empty sub-topic of some question of that category; order is by first appearance in the catalogue |
| `Dashboard.TypeCountBounded` | components/Dashboard.tsx:179 | a sub-topic's count never exceeds its category's count (line 96) |
| `Dashboard.TypeCount` | components/Dashboard.tsx:179 | a sub-topic button's count never exceeds the catalogue size |
| `Dashboard.TypeCountZero` | components/Dashboard.tsx:179 | a sub-topic button's count is 0 exactly when no question of that category carries the sub-topic |
| `Dashboard.SumTypeCountsHead` | components/Dashboard.tsx:179 | the first question adds one to the sum of distinct topics' counts exactly when its topic is among them |
| `Dashboard.SumTypeCountsIsCount` | components/Dashboard.tsx:179 | for distinct topics, the per-topic counts sum to the number of category questions whose topic is among them |
| `Dashboard.TypeCountsSum` | components/Dashboard.tsx:170-181 | the picker's per-topic counts sum exactly to the number of category questions that carry a sub-topic: every such question is counted once, under its own topic |
| `Dashboard.TypeCountsWithinCategory` | components/Dashboard.tsx:170-181 | the picker's per-topic counts together never exceed the category card's count (line 96) |
| `Dashboard.CategoryClick` | components/Dashboard.tsx:38-45 | starts a mixed session `(cat, null)` directly exactly when no question of the category carries a sub-topic; otherwise only records the category for the picker, which is visible exactly when the id is non-empty (line 147) |
| `Dashboard.PickMix` | components/Dashboard.tsx:160 | "Mix Practice", offered only while the picker is visible, starts `(cat, null)` for the open category and closes the picker |
| `Dashboard.PickSubTopic` | components/Dashboard.tsx:173 | a topic button, offered only while the picker is visible, starts `(cat, topic)` and closes the picker; the topic is non-empty and has at least one question |
| `Dashboard.ClosePicker` | components/Dashboard.tsx:155 | the picker's close button hides the picker and starts no session |
| `Dashboard.SubTopicLaunchIsNeverEmpty` | components/Dashboard.tsx:170-173 | a session launched from a topic button has eligible questions and the cap of 50, so the engine never shows "no content" for it (same catalogue assumed) |

## Left out

- Rendering, CSS, charts and icons are presentation only. This includes the red styling below 10 seconds
  and the hint text fallback.
- The accuracy percentage (QuizSummary.tsx:35) uses floating-point division and is NaN for an empty
  session.
- The random result `id`, the ISO `date`, the dashboard quote and the mastery percentages come from
  randomness and the clock.
- `analyzePerformance` (services/geminiService.ts) is an external network call. Only the report's list
  fields appear, through `AIReport`. The `analyzing` and `aiReport` screen state is not modelled.
- Static display data is not modelled: the mock performance chart, the "↑ 12" rank delta, and the
  user-profile statistics.
- `onExit` and the parent that receives `onComplete` are not modelled. They hand control to the
  surrounding app, which is not part of this model.
- `SessionInit.Shuffle`: proves only that the result is a permutation, not any distribution, because
  the source's comparator shuffle is not uniform.
- `QuizEngine.Jump`: requires an index inside the session instead of rejecting others, because the
  source does no check and its grid only offers session indices.
- `TimerEffects.Settle`: cascades are cut off after 8 renders. The lemmas show the cascades they cover
  settle within four.
- `QuizTypes.LimitOf`: time limits, `maxQuestions` and `questionsPerQuiz` are non-negative integers.
  Negative or non-integer settings are not modelled.
- `QuizEngine.Launch`: for an empty session the source still starts both intervals. The hooks at
  QuizEngine.tsx:53-77 run before the early return at line 160. Behind the "no content" screen, when the
  timer is shown, the countdown starts at 30, and on reaching 0 it calls `handleNext`, which sets `showConfirm` because
  `isLastQuestion` is false there. The global clock keeps counting until exit. Nothing on that screen
  shows this state, so the model carries no engine for an empty session.
- An `undefined` `selectedOption` is not modelled. The engine only ever stores an index or `null`.
- `QuizEngine.AttemptedMatchesResult`: holds only when session question ids are distinct. The source
  does not guarantee distinct ids; with repeated ids, answers are shared by id.

## Findings

| source | as written | input that shows it | evidently intended | confidence | as-written member | corrected member |
|---|---|---|---|---|---|---|
| components/QuizEngine.tsx:59-77 | The countdown effect expires the question and calls `handleNext`. The countdown is re-armed only by a later effect. The render in between has the new position but still shows 0, so the expiry effect runs again and advances a second time. For the same reason, after expiry on the last question, Prev and a grid jump land one position further forward than asked. | 3 questions, timer shown, position 0 with 1 second left: after one tick the position is 2. After expiry on the last of 2 questions, Prev stays on position 1; of 3, a jump to position 0 lands on position 1. | Expiry advances exactly one position and re-arms the countdown for that question. After a last-question expiry, Prev steps back and a jump lands where asked. | medium; not executed (derived from React's effect ordering) | `TimerEffects.ExpiryAdvancesTwice` | `QuizEngine.Tick` |
