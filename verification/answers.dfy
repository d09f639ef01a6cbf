/** The engine's answer list (`userAnswers`): an array of `UserAnswer`
    looked up by `questionId` with `find`/`findIndex` and updated with
    insert-or-replace semantics (QuizEngine.tsx, `handleSelect`). */
module Answers {
  import opened QuizTypes
  import opened SeqUtil

  /** `answers.findIndex(ua => ua.questionId === id)`: the first position
      holding an answer to `id`, or -1. */
  function FindIndex(answers: seq<UserAnswer>, id: string): (r: int)
    ensures -1 <= r < |answers|
    ensures r >= 0 ==> answers[r].questionId == id
    ensures r >= 0 ==> forall j :: 0 <= j < r ==> answers[j].questionId != id
    ensures r == -1 ==> forall j :: 0 <= j < |answers| ==> answers[j].questionId != id
  {
    if |answers| == 0 then -1
    else if answers[0].questionId == id then 0
    else
      var k := FindIndex(answers[1..], id);
      if k < 0 then -1 else k + 1
  }

  /** `answers.find(ua => ua.questionId === id)`. */
  function Find(answers: seq<UserAnswer>, id: string): (r: Option<UserAnswer>)
    ensures r.Some? <==> exists j :: 0 <= j < |answers| && answers[j].questionId == id
    ensures r.Some? ==> r.value in answers && r.value.questionId == id
    ensures r.Some? ==> exists k :: 0 <= k < |answers| && answers[k] == r.value &&
                                   (forall j :: 0 <= j < k ==> answers[j].questionId != id)
  {
    var k := FindIndex(answers, id);
    if k < 0 then None else Some(answers[k])
  }

  /** At most one answer per question. */
  predicate UniqueIds(answers: seq<UserAnswer>)
  {
    forall i, j :: 0 <= i < j < |answers| ==> answers[i].questionId != answers[j].questionId
  }

  /** Appending an answer to a question the list does not mention yet. */
  lemma FindSnoc(answers: seq<UserAnswer>, a: UserAnswer, id: string)
    ensures Find(answers + [a], id) ==
      if Find(answers, id).Some? then Find(answers, id)
      else if a.questionId == id then Some(a)
      else None
  {
    var k := FindIndex(answers, id);
    var k' := FindIndex(answers + [a], id);
    if k >= 0 {
      assert forall j :: 0 <= j < |answers| ==> (answers + [a])[j] == answers[j];
    } else {
      assert forall j :: 0 <= j < |answers| ==> (answers + [a])[j] == answers[j];
      assert (answers + [a])[|answers|] == a;
      if a.questionId == id {
        assert k' == |answers|;
      } else {
        assert k' == -1;
      }
    }
  }

  /** `handleSelect`'s update (lines 88-94): replace the answer already
      recorded for the same question in place, or append a new one. */
  function Upsert(answers: seq<UserAnswer>, a: UserAnswer): (r: seq<UserAnswer>)
    ensures Find(r, a.questionId) == Some(a)
    ensures forall id :: id != a.questionId ==> Find(r, id) == Find(answers, id)
    ensures |r| == |answers| + (if Find(answers, a.questionId).None? then 1 else 0)
    ensures Find(answers, a.questionId).None? ==> r == answers + [a]
    ensures forall i :: 0 <= i < |answers| && answers[i].questionId != a.questionId ==> r[i] == answers[i]
    ensures forall x :: x in r ==> x in answers || x == a
    ensures UniqueIds(answers) ==> UniqueIds(r)
  {
    var k := FindIndex(answers, a.questionId);
    if k >= 0 then
      var r := answers[k := a];
      assert FindIndex(r, a.questionId) == k by {
        assert r[k] == a;
        assert forall j :: 0 <= j < k ==> r[j] == answers[j];
      }
      assert forall id :: id != a.questionId ==> Find(r, id) == Find(answers, id) by {
        forall id | id != a.questionId
          ensures Find(r, id) == Find(answers, id)
        {
          assert forall j :: 0 <= j < |r| ==> (r[j].questionId == id <==> answers[j].questionId == id);
          assert FindIndex(r, id) == FindIndex(answers, id);
        }
      }
      r
    else
      FindSnoc(answers, a, a.questionId);
      assert forall id :: id != a.questionId ==> Find(answers + [a], id) == Find(answers, id) by {
        forall id | id != a.questionId
          ensures Find(answers + [a], id) == Find(answers, id)
        {
          FindSnoc(answers, a, id);
        }
      }
      answers + [a]
  }

  /** The "attempted" figure of the confirmation dialog (line 360): answers
      whose selection is neither `null` nor `undefined`. */
  function Attempted(answers: seq<UserAnswer>): (r: nat)
    ensures r <= |answers|
    ensures r == 0 <==> forall a :: a in answers ==> a.selected.None?
  {
    var chosen := Filter(answers, (a: UserAnswer) => a.selected.Some?);
    assert |chosen| > 0 ==> chosen[0] in chosen;
    |chosen|
  }

  lemma AttemptedSnoc(answers: seq<UserAnswer>, a: UserAnswer)
    ensures Attempted(answers + [a]) == Attempted(answers) + (if a.selected.Some? then 1 else 0)
  {
    FilterConcat(answers, [a], (x: UserAnswer) => x.selected.Some?);
  }
}
