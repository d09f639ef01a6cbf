/** The per-question countdown as the source actually schedules it
    (QuizEngine.tsx, lines 53-77), kept apart from the engine's atomic
    model so that the two can be compared.

    In the source, a position change and the countdown's reset are not one
    step: a handler changes `currentIdx`, the component re-renders with the
    old countdown value, and only then do the passive effects run, in
    declaration order, each reading that render's values: the countdown
    effect (lines 59-72, re-run when the countdown or the position changed)
    and the sync effect (lines 75-77, re-run when the position changed).
    Their state updates are batched into the next render, which may re-run
    the effects again, until nothing they watch changes. */
module TimerEffects {
  import opened QuizTypes
  import opened QuizEngine

  /** The watched values that can change during a session (`showTimer` is
      a prop and stays fixed). */
  datatype Deps = Deps(timer: int, idx: int)

  function DepsOf(e: Engine): Deps
  {
    Deps(e.questionTimer, e.currentIdx)
  }

  /** The passive effects of one commit of `e`, given what they saw at the
      previous commit. */
  function Commit(prev: Deps, e: Engine): (r: Engine)
    requires InRange(e)
    ensures InRange(r) && r.questions == e.questions
  {
    var afterCountdown :=
      if DepsOf(e) != prev && e.showTimer && e.questionTimer == 0 then
        (if e.currentIdx != LastIdx(e) then NextHandler(e) else e.(showConfirm := true))
      else e;
    if e.currentIdx != prev.idx then afterCountdown.(questionTimer := LimitOf(Current(e)))
    else afterCountdown
  }

  /** Renders follow one another until a commit changes nothing the effects
      watch. The budget is far above the four renders any cascade below
      needs. */
  const RenderBudget: nat := 8

  function Settle(prev: Deps, e: Engine, fuel: nat): (r: Engine)
    requires InRange(e)
    ensures InRange(r) && r.questions == e.questions
    decreases fuel
  {
    if fuel == 0 || DepsOf(e) == prev then e
    else Settle(DepsOf(e), Commit(prev, e), fuel - 1)
  }

  /** One second as written: both intervals fire (lines 54 and 62), then
      the renders they cause play out. */
  function TickAsWritten(e: Engine): (r: Engine)
    requires InRange(e)
    ensures InRange(r)
  {
    var ticked := e.(
      totalTimer := e.totalTimer + 1,
      questionTimer := if e.showTimer && e.questionTimer > 0 then e.questionTimer - 1 else e.questionTimer);
    Settle(DepsOf(e), ticked, RenderBudget)
  }

  /** The Prev button as written: `handlePrev`, then the renders it causes. */
  function PrevAsWritten(e: Engine): (r: Engine)
    requires InRange(e)
    ensures InRange(r)
  {
    Settle(DepsOf(e), PrevHandler(e), RenderBudget)
  }

  /** A question-grid button as written: `jumpToQuestion`, then the
      renders it causes. */
  function JumpAsWritten(e: Engine, idx: int): (r: Engine)
    requires InRange(e) && 0 <= idx < |e.questions|
    ensures InRange(r)
  {
    Settle(DepsOf(e), JumpHandler(e, idx), RenderBudget)
  }

  /** Away from an expiry that should advance, the source's schedule and
      the atomic `Tick` agree exactly. */
  lemma TickAgreesExceptOnAdvance(e: Engine)
    requires Valid(e)
    requires !(e.showTimer && e.questionTimer == 1 && e.currentIdx < LastIdx(e))
    ensures TickAsWritten(e) == Tick(e)
  {
    var ticked := e.(
      totalTimer := e.totalTimer + 1,
      questionTimer := if e.showTimer && e.questionTimer > 0 then e.questionTimer - 1 else e.questionTimer);
    if DepsOf(ticked) != DepsOf(e) {
      var c1 := Commit(DepsOf(e), ticked);
      assert DepsOf(c1) == DepsOf(ticked);
      assert Settle(DepsOf(e), ticked, RenderBudget) == Settle(DepsOf(ticked), c1, RenderBudget - 1);
      assert Settle(DepsOf(ticked), c1, RenderBudget - 1) == c1;
    }
  }

  /** The countdown reaching zero below the last question moves two
      positions in the source (the countdown effect re-runs in the render
      after its own `handleNext`, because the position changed while the
      countdown still reads 0), and lands on the last question with the
      confirmation raised when only one question was left; the atomic
      `Tick` advances exactly one position. */
  lemma ExpiryAdvancesTwice(e: Engine)
    requires Valid(e)
    requires e.showTimer && e.questionTimer == 1 && e.currentIdx < LastIdx(e)
    ensures e.currentIdx + 1 < LastIdx(e) ==> TickAsWritten(e).currentIdx == e.currentIdx + 2
    ensures e.currentIdx + 1 == LastIdx(e) ==>
      TickAsWritten(e).currentIdx == LastIdx(e) && TickAsWritten(e).showConfirm
    ensures Tick(e).currentIdx == e.currentIdx + 1
  {
    var k := e.currentIdx;
    var ticked := e.(totalTimer := e.totalTimer + 1, questionTimer := 0);
    var d0 := DepsOf(e);
    // render 1: the countdown effect sees 0 and calls handleNext
    var c1 := Commit(d0, ticked);
    assert c1 == ticked.(currentIdx := k + 1, showHint := false);
    assert Settle(d0, ticked, 8) == Settle(DepsOf(ticked), c1, 7);
    // render 2: the position moved but the countdown still reads 0
    var c2 := Commit(DepsOf(ticked), c1);
    var l1 := LimitOf(e.questions[k + 1]);
    if k + 1 < LastIdx(e) {
      assert c2 == c1.(currentIdx := k + 2, questionTimer := l1);
    } else {
      assert c2 == c1.(showConfirm := true, questionTimer := l1);
    }
    assert Settle(DepsOf(ticked), c1, 7) == Settle(DepsOf(c1), c2, 6);
    // render 3: the sync effect re-arms for the question finally shown
    var c3 := Commit(DepsOf(c1), c2);
    if k + 1 < LastIdx(e) {
      assert c3 == c2.(questionTimer := LimitOf(e.questions[k + 2]));
      assert Settle(DepsOf(c1), c2, 6) == Settle(DepsOf(c2), c3, 5);
      // render 4: nothing moves any more
      if DepsOf(c3) != DepsOf(c2) {
        assert Commit(DepsOf(c2), c3) == c3;
        assert Settle(DepsOf(c2), c3, 5) == Settle(DepsOf(c3), c3, 4);
      }
    } else {
      assert c3 == c2;
      assert Settle(DepsOf(c1), c2, 6) == Settle(DepsOf(c2), c3, 5);
    }
  }

  /** Outside the bounce below (a countdown left at zero on the last of
      several questions), the source's Prev and the atomic `Prev` agree
      exactly. */
  lemma PrevAgreesExceptAfterLastExpiry(e: Engine)
    requires Valid(e)
    requires e.questionTimer > 0 || |e.questions| == 1
    ensures PrevAsWritten(e) == Prev(e)
  {
    var d0 := DepsOf(e);
    var p := PrevHandler(e);
    if e.currentIdx > 0 {
      // render 1: only the sync effect runs and re-arms for the new position
      var c1 := Commit(d0, p);
      assert c1 == p.(questionTimer := LimitOf(e.questions[e.currentIdx - 1]));
      assert Settle(d0, p, 8) == Settle(DepsOf(p), c1, 7);
      // render 2: the fresh countdown is positive, so nothing moves
      if DepsOf(c1) != DepsOf(p) {
        assert Commit(DepsOf(p), c1) == c1;
        assert Settle(DepsOf(p), c1, 7) == Settle(DepsOf(c1), c1, 6);
      }
    }
  }

  /** After the countdown expired on the last question and the user went
      back from the confirmation, Prev cannot leave the last question in
      the source: the countdown effect sees 0 at the new position and
      advances again. The atomic `Prev` steps back. */
  lemma PrevBouncesAfterLastExpiry(e: Engine)
    requires Valid(e)
    requires e.questionTimer == 0 && |e.questions| >= 2
    ensures PrevAsWritten(e).currentIdx == e.currentIdx == LastIdx(e)
    ensures Prev(e).currentIdx == e.currentIdx - 1
  {
    var n := |e.questions|;
    var d0 := DepsOf(e);
    var p := PrevHandler(e);
    assert p == e.(currentIdx := n - 2, showHint := false);
    // render 1: countdown effect advances, sync effect re-arms for n - 2
    var c1 := Commit(d0, p);
    assert c1 == p.(currentIdx := n - 1, questionTimer := LimitOf(e.questions[n - 2]));
    assert Settle(d0, p, 8) == Settle(DepsOf(p), c1, 7);
    // render 2: sync effect re-arms for n - 1
    var c2 := Commit(DepsOf(p), c1);
    assert c2 == c1.(questionTimer := LimitOf(e.questions[n - 1]));
    assert Settle(DepsOf(p), c1, 7) == Settle(DepsOf(c1), c2, 6);
    if DepsOf(c2) != DepsOf(c1) {
      assert Commit(DepsOf(c1), c2) == c2;
      assert Settle(DepsOf(c1), c2, 6) == Settle(DepsOf(c2), c2, 5);
    }
  }

  /** The same bounce for the question grid: after the countdown expired
      on the last question, a jump to an earlier question lands one further
      on in the source. The atomic `Jump` lands where asked. */
  lemma JumpBouncesAfterLastExpiry(e: Engine, idx: int)
    requires Valid(e)
    requires e.questionTimer == 0 && 0 <= idx < LastIdx(e)
    ensures JumpAsWritten(e, idx).currentIdx == idx + 1
    ensures Jump(e, idx).currentIdx == idx
  {
    var d0 := DepsOf(e);
    var j := JumpHandler(e, idx);
    // render 1: countdown effect advances, sync effect re-arms for idx
    var c1 := Commit(d0, j);
    assert c1 == j.(currentIdx := idx + 1, showHint := false, questionTimer := LimitOf(e.questions[idx]));
    assert Settle(d0, j, 8) == Settle(DepsOf(j), c1, 7);
    // render 2: sync effect re-arms for idx + 1
    var c2 := Commit(DepsOf(j), c1);
    assert c2 == c1.(questionTimer := LimitOf(e.questions[idx + 1]));
    assert Settle(DepsOf(j), c1, 7) == Settle(DepsOf(c1), c2, 6);
    if DepsOf(c2) != DepsOf(c1) {
      assert Commit(DepsOf(c1), c2) == c2;
      assert Settle(DepsOf(c1), c2, 6) == Settle(DepsOf(c2), c2, 5);
    }
  }

  /** Outside the bounce above (a countdown left at zero and a jump below
      the last question), the source's grid jump and the atomic `Jump`
      agree exactly. */
  lemma JumpAgreesExceptAfterLastExpiry(e: Engine, idx: int)
    requires Valid(e) && 0 <= idx < |e.questions|
    requires e.questionTimer > 0 || idx == LastIdx(e)
    ensures JumpAsWritten(e, idx) == Jump(e, idx)
  {
    var d0 := DepsOf(e);
    var j := JumpHandler(e, idx);
    if idx != e.currentIdx {
      // render 1: only the sync effect runs and re-arms for idx
      var c1 := Commit(d0, j);
      assert c1 == j.(questionTimer := LimitOf(e.questions[idx]));
      assert Settle(d0, j, 8) == Settle(DepsOf(j), c1, 7);
      // render 2: the fresh countdown is positive, so nothing moves
      if DepsOf(c1) != DepsOf(j) {
        assert Commit(DepsOf(j), c1) == c1;
        assert Settle(DepsOf(j), c1, 7) == Settle(DepsOf(c1), c1, 6);
      }
    }
  }
}
