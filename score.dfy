/**
 * The scoring engine of the karuta client (application/src/composables/useScore.js):
 * a running score, a combo counter, hit/miss totals and two append-only logs.
 */
module Score {
  import opened GameConfig

  type CardId = string

  function Max(a: real, b: real): real { if a >= b then a else b }

  /** The raw value of a take after `elapsedMs` milliseconds: max(0, k / elapsedMs^2). */
  function BaseScore(k: real, elapsedMs: real): real
    requires elapsedMs > 0.0
  {
    Max(0.0, k / (elapsedMs * elapsedMs))
  }

  /** The multiplier earned by `combo` consecutive correct takes before this one. */
  function ComboBonus(step: real, combo: nat): real
  {
    1.0 + combo as real * step
  }

  /** What one correct take adds to the score, given the combo count before the take. */
  function HitScore(k: real, step: real, elapsedMs: real, combo: nat): real
    requires elapsedMs > 0.0
  {
    BaseScore(k, elapsedMs) * ComboBonus(step, combo)
  }

  lemma {:induction false} HitScorePositive(k: real, step: real, elapsedMs: real, combo: nat)
    requires k > 0.0 && step >= 0.0 && elapsedMs > 0.0
    ensures BaseScore(k, elapsedMs) == k / (elapsedMs * elapsedMs) > 0.0
    ensures HitScore(k, step, elapsedMs, combo) >= BaseScore(k, elapsedMs)
  {
    var sq := elapsedMs * elapsedMs;
    assert sq > 0.0;
    var b := k / sq;
    assert b > 0.0;
    var m := ComboBonus(step, combo);
    assert m >= 1.0 by { assert combo as real * step >= 0.0; }
    assert b * m >= b * 1.0;
  }

  /** Taking a card faster is worth strictly more, whatever the combo. */
  lemma {:induction false} HitScoreDecreasingInTime(k: real, step: real, e1: real, e2: real, combo: nat)
    requires k > 0.0 && step >= 0.0 && 0.0 < e1 < e2
    ensures HitScore(k, step, e2, combo) < HitScore(k, step, e1, combo)
  {
    HitScorePositive(k, step, e1, combo);
    HitScorePositive(k, step, e2, combo);
    var s1, s2 := e1 * e1, e2 * e2;
    assert s1 < s2 by {
      assert e1 * e1 < e1 * e2;
      assert e1 * e2 < e2 * e2;
    }
    var b1, b2 := k / s1, k / s2;
    assert b2 < b1 by {
      assert b1 * s1 == k && b2 * s2 == k;
      assert b2 * s1 < b2 * s2;
    }
    var m := ComboBonus(step, combo);
    assert m >= 1.0 by { assert combo as real * step >= 0.0; }
    assert b2 * m < b1 * m;
  }

  /** A longer combo makes the same take worth strictly more. */
  lemma {:induction false} HitScoreIncreasingInCombo(k: real, step: real, elapsedMs: real, c1: nat, c2: nat)
    requires k > 0.0 && step > 0.0 && elapsedMs > 0.0 && c1 < c2
    ensures HitScore(k, step, elapsedMs, c1) < HitScore(k, step, elapsedMs, c2)
  {
    HitScorePositive(k, step, elapsedMs, c1);
    var b := BaseScore(k, elapsedMs);
    var m1, m2 := ComboBonus(step, c1), ComboBonus(step, c2);
    assert m1 < m2 by {
      assert (c2 as real - c1 as real) * step > 0.0;
    }
    assert b * m1 < b * m2;
  }

  /** A worked example of the formula: coefficient 1000, step 0.2, two takes after 200 ms each. */
  lemma {:induction false} HitScoreWorkedExample()
    ensures HitScore(1000.0, 0.2, 200.0, 0) == 0.025
    ensures HitScore(1000.0, 0.2, 200.0, 1) == 0.03
  {
  }

  /** One input event of the engine, as the game driver issues them. */
  datatype Event = Correct(elapsedMs: real, cardId: CardId) | Mistake(elapsedMs: real)

  /** The six observable fields of the engine, as a value. */
  datatype Tally = Tally(score: real, combo: nat, totalCorrect: nat, totalMistake: nat,
                         reactionTimes: seq<real>, takenCardIds: seq<CardId>)

  /** The state right after creation or a reset. */
  function Zero(): Tally { Tally(0.0, 0, 0, 0, [], []) }

  /** Every correct take carries a positive reaction time. */
  predicate WellTimed(h: seq<Event>)
  {
    forall i :: 0 <= i < |h| ==> h[i].Correct? ==> h[i].elapsedMs > 0.0
  }

  /** The effect of one event on the tally. */
  function Apply(s: Tally, ev: Event): Tally
    requires ev.Correct? ==> ev.elapsedMs > 0.0
  {
    match ev
    case Correct(e, id) =>
      Tally(s.score + HitScore(K, COMBO_BONUS_STEP, e, s.combo), s.combo + 1, s.totalCorrect + 1,
            s.totalMistake, s.reactionTimes + [e], s.takenCardIds + [id])
    case Mistake(_) =>
      Tally(s.score - PENALTY, 0, s.totalCorrect, s.totalMistake + 1, s.reactionTimes, s.takenCardIds)
  }

  /** The tally reached from the zero state by the events `h`, oldest first. */
  function Replay(h: seq<Event>): Tally
    requires WellTimed(h)
  {
    if h == [] then Zero() else Apply(Replay(h[..|h| - 1]), h[|h| - 1])
  }

  /** Replaying one more event applies it to the tally replayed so far. */
  lemma {:induction false} ReplaySnoc(h: seq<Event>, ev: Event)
    requires WellTimed(h) && (ev.Correct? ==> ev.elapsedMs > 0.0)
    ensures WellTimed(h + [ev]) && Replay(h + [ev]) == Apply(Replay(h), ev)
  {
    var h' := h + [ev];
    assert h'[..|h'| - 1] == h;
  }

  function CountCorrect(h: seq<Event>): nat
  {
    if h == [] then 0 else CountCorrect(h[..|h| - 1]) + (if h[|h| - 1].Correct? then 1 else 0)
  }

  /**
   * The combo is the number of correct takes since the last mistake (or since the reset):
   * the last `combo` events are all correct and the one before them, if any, is a mistake.
   */
  lemma {:induction false} ReplayCombo(h: seq<Event>)
    requires WellTimed(h)
    ensures Replay(h).combo <= |h|
    ensures forall j :: |h| - Replay(h).combo <= j < |h| ==> h[j].Correct?
    ensures Replay(h).combo < |h| ==> h[|h| - Replay(h).combo - 1].Mistake?
  {
    if h != [] {
      var p := h[..|h| - 1];
      assert WellTimed(p) by { forall i | 0 <= i < |p| ensures p[i] == h[i] { } }
      ReplayCombo(p);
      forall j | 0 <= j < |p| ensures p[j] == h[j] { }
    }
  }

  /**
   * Both logs have one element per correct take, and every event is either a correct
   * take or a mistake.
   */
  lemma {:induction false} ReplayCounts(h: seq<Event>)
    requires WellTimed(h)
    ensures |Replay(h).reactionTimes| == |Replay(h).takenCardIds| == Replay(h).totalCorrect == CountCorrect(h)
    ensures Replay(h).totalCorrect + Replay(h).totalMistake == |h|
  {
    if h != [] {
      var p := h[..|h| - 1];
      assert WellTimed(p) by { forall i | 0 <= i < |p| ensures p[i] == h[i] { } }
      ReplayCounts(p);
    }
  }

  /** The score engine: the six reactive fields of the source become plain fields. */
  class ScoreKeeper {
    var score: real
    var combo: nat
    var totalCorrect: nat
    var totalMistake: nat
    var reactionTimes: seq<real>
    var takenCardIds: seq<CardId>
    /** The events since creation or the last reset. */
    ghost var history: seq<Event>

    function Fields(): Tally
      reads this
    {
      Tally(score, combo, totalCorrect, totalMistake, reactionTimes, takenCardIds)
    }

    ghost predicate Valid()
      reads this
    {
      WellTimed(history) && Fields() == Replay(history)
    }

    constructor ()
      ensures Valid() && history == []
      ensures Fields() == Zero()
    {
      score, combo, totalCorrect, totalMistake := 0.0, 0, 0, 0;
      reactionTimes, takenCardIds := [], [];
      history := [];
    }

    /** resetScore: back to the zero state, whatever happened before. */
    method ResetScore()
      modifies this
      ensures Valid() && history == []
      ensures score == 0.0 && combo == 0 && totalCorrect == 0 && totalMistake == 0
      ensures reactionTimes == [] && takenCardIds == []
    {
      score := 0.0;
      combo := 0;
      totalCorrect := 0;
      totalMistake := 0;
      reactionTimes := [];
      takenCardIds := [];
      history := [];
    }

    /**
     * addCorrect: scores a take after `elapsedMs` milliseconds with the combo bonus of the
     * combo count BEFORE the take, and returns the points added.
     */
    method AddCorrect(elapsedMs: real, cardId: CardId) returns (finalScore: real)
      requires Valid() && elapsedMs > 0.0
      modifies this
      ensures Valid() && history == old(history) + [Correct(elapsedMs, cardId)]
      ensures finalScore == HitScore(K, COMBO_BONUS_STEP, elapsedMs, old(combo))
      ensures finalScore >= K / (elapsedMs * elapsedMs) > 0.0
      ensures score == old(score) + finalScore
      ensures combo == old(combo) + 1 && totalCorrect == old(totalCorrect) + 1
      ensures totalMistake == old(totalMistake)
      ensures reactionTimes == old(reactionTimes) + [elapsedMs]
      ensures takenCardIds == old(takenCardIds) + [cardId]
      ensures |reactionTimes| == |takenCardIds| == totalCorrect
    {
      ghost var before := Fields();
      var baseScore := BaseScore(K, elapsedMs);
      var comboBonus := ComboBonus(COMBO_BONUS_STEP, combo);
      finalScore := baseScore * comboBonus;
      HitScorePositive(K, COMBO_BONUS_STEP, elapsedMs, combo);

      score := score + finalScore;
      combo := combo + 1;
      totalCorrect := totalCorrect + 1;
      reactionTimes := reactionTimes + [elapsedMs];
      takenCardIds := takenCardIds + [cardId];
      assert Fields() == Apply(before, Correct(elapsedMs, cardId));
      ReplaySnoc(history, Correct(elapsedMs, cardId));
      history := history + [Correct(elapsedMs, cardId)];
      ReplayCounts(history);
    }

    /** addMistake: subtracts the penalty, breaks the combo and returns the penalty. */
    method AddMistake(elapsedMs: real) returns (penalty: real)
      requires Valid()
      modifies this
      ensures Valid() && history == old(history) + [Mistake(elapsedMs)]
      ensures penalty == PENALTY
      ensures score == old(score) - PENALTY
      ensures combo == 0 && totalMistake == old(totalMistake) + 1
      ensures totalCorrect == old(totalCorrect)
      ensures reactionTimes == old(reactionTimes) && takenCardIds == old(takenCardIds)
      ensures |reactionTimes| == |takenCardIds| == totalCorrect
    {
      score := score - PENALTY;
      combo := 0;
      totalMistake := totalMistake + 1;
      ReplaySnoc(history, Mistake(elapsedMs));
      history := history + [Mistake(elapsedMs)];
      ReplayCounts(history);
      penalty := PENALTY;
    }
  }
}
