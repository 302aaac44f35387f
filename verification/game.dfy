/**
 * The game as a state machine: a new game is dealt from a shuffled deck
 * and each successful action moves to the next state. The states a game
 * can reach keep a full hand, budgets within their initial values, a draw
 * pile whose size follows from the budgets spent, and no card twice. On
 * those states the transition fails only when validation rejects the
 * action, and every successful step spends budget, so a game ends.
 */
module Game {
  import opened Wrappers
  import opened Seqs
  import opened Json
  import opened Cards
  import opened Evaluator
  import opened Scoring
  import opened Actions
  import opened State
  import opened Rules

  /** Cards left to draw after the deal, before any action. */
  const INITIAL_DECK_SIZE: nat := 45

  /**
   * A state a game can reach: seven cards in hand, budgets between zero and
   * their initial values, a non-negative score, a draw pile that has lost
   * five cards per play and one per discarded card, and hand and pile
   * holding valid cards, none twice.
   */
  predicate Consistent(s: GameState)
  {
    && |s.hand| == INITIAL_HAND_SIZE
    && 0 <= s.pRemaining <= INITIAL_P
    && 0 <= s.dRemaining <= INITIAL_D
    && s.scoreTotal >= 0
    && |s.deck| == INITIAL_DECK_SIZE - 5 * (INITIAL_P - s.pRemaining) - (INITIAL_D - s.dRemaining)
    && Distinct(s.hand + s.deck)
    && forall c :: c in s.hand + s.deck ==> IsValidCard(c)
  }

  /** A new game dealt from any shuffle of the canonical deck is consistent. */
  lemma NewGameConsistent(shuffled: seq<Card>)
    requires IsShuffledDeck(shuffled)
    ensures Consistent(FromSeed(shuffled))
  {
  }

  /** The cards of part of a sequence with no repeats are distinct too. */
  lemma DistinctPrefix(a: seq<Card>, b: seq<Card>)
    requires Distinct(a + b)
    ensures Distinct(a)
  {
    assert multiset(a + b) == multiset(a) + multiset(b);
    DistinctSubMultiset(a, a + b);
  }

  /**
   * Every successful step from a consistent state leads to a consistent
   * state and spends at least one unit of budget (one play, or one discard
   * per discarded card).
   */
  lemma StepPreservesConsistent(s: GameState, action: Action)
    requires Consistent(s)
    requires ApplyAction(s, action).Ok?
    ensures Consistent(ApplyAction(s, action).value.0)
    ensures var next := ApplyAction(s, action).value.0;
      next.pRemaining + next.dRemaining < s.pRemaining + s.dRemaining
  {
    var next := ApplyAction(s, action).value.0;
    ApplyInvariants(s, action);
    var n := |action.selectedIndices|;
    if action.kind == DISCARD {
      ApplyDiscard(s, action);
      LegalSelectionFitsHand(action, |s.hand|, s.pRemaining, s.dRemaining);
      assert next.deck == s.deck[n..] && next.dRemaining == s.dRemaining - n;
    } else {
      ApplyPlayFailures(s, action);
      var score := Score5CardHandGameplay(Selected(s, action));
      ApplyPlay(s, action, score.value.0, score.value.1);
      assert next.deck == s.deck[5..] && next.pRemaining == s.pRemaining - 1;
    }
    var before, after := s.hand + s.deck, next.hand + next.deck;
    assert multiset(before) == multiset(s.hand) + multiset(s.deck);
    assert multiset(after) == multiset(next.hand) + multiset(next.deck);
    assert multiset(after) <= multiset(before);
    DistinctSubMultiset(after, before);
    forall c | c in after ensures IsValidCard(c) {
      assert c in multiset(before);
    }
  }

  /** The cards a valid PLAY removes from a consistent state always score. */
  lemma ConsistentPlayScores(s: GameState, action: Action)
    requires Consistent(s)
    requires ValidateAction(action, |s.hand|, s.pRemaining, s.dRemaining) == Pass
    requires action.kind == PLAY
    ensures Score5CardHandGameplay(Selected(s, action)).Ok?
  {
    ApplyPlayFailures(s, action);
    var removed := Selected(s, action);
    DistinctPrefix(s.hand, s.deck);
    RemovedDistinct(s.hand, ToSet(action.selectedIndices));
    RemovedMembers(s.hand, ToSet(action.selectedIndices), |s.hand|);
    forall i | 0 <= i < |removed| ensures IsValidCard(removed[i]) {
      assert removed[i] in removed;
      var j :| 0 <= j < |s.hand| && j in ToSet(action.selectedIndices) && s.hand[j] == removed[i];
      assert s.hand[j] in s.hand + s.deck;
    }
  }

  /**
   * From a consistent state the transition fails only when validation
   * rejects the action, and then with the validator's reason: the draw pile
   * is always long enough, the hand always refills to seven cards, and the
   * played cards always score.
   */
  lemma ConsistentStepFailsOnlyOnValidation(s: GameState, action: Action)
    requires Consistent(s)
    ensures ApplyAction(s, action).Ok? <==> ValidateAction(action, |s.hand|, s.pRemaining, s.dRemaining) == Pass
    ensures ApplyAction(s, action).Err? ==>
      ApplyAction(s, action).error == Invalid(ValidateAction(action, |s.hand|, s.pRemaining, s.dRemaining).error)
  {
    var v := ValidateAction(action, |s.hand|, s.pRemaining, s.dRemaining);
    if v.Fail? {
      ApplyRejectsInvalid(s, action);
    } else if action.kind == DISCARD {
      ApplyDiscard(s, action);
      LegalSelectionFitsHand(action, |s.hand|, s.pRemaining, s.dRemaining);
    } else {
      ConsistentPlayScores(s, action);
      var score := Score5CardHandGameplay(Selected(s, action));
      ApplyPlay(s, action, score.value.0, score.value.1);
    }
  }

  /**
   * On a reachable state the public deck count follows from the public
   * budgets: 45 cards less five per play and one per discarded card.
   */
  lemma PublicDeckCountFromBudgets(s: GameState)
    requires Consistent(s)
    ensures DeckRemainingCount(s) == INITIAL_DECK_SIZE - 5 * (INITIAL_P - s.pRemaining) - (INITIAL_D - s.dRemaining)
    ensures ToPublicDict(s).fields["deck_remaining_count"] ==
      JInt(INITIAL_DECK_SIZE - 5 * (INITIAL_P - s.pRemaining) - (INITIAL_D - s.dRemaining))
  {
  }

  /**
   * Two reachable states show the same public view exactly when they agree
   * on hand, budgets and score: the deck count adds nothing beyond them.
   */
  lemma PublicViewDeterminedByBudgets(s: GameState, t: GameState)
    requires Consistent(s) && Consistent(t)
    ensures ToPublicDict(s) == ToPublicDict(t) <==>
      s.hand == t.hand && s.pRemaining == t.pRemaining && s.dRemaining == t.dRemaining &&
      s.scoreTotal == t.scoreTotal
  {
  }

  /** Once both budgets are spent, every action is rejected: the game is over. */
  lemma ExhaustedBudgetsRejectAll(s: GameState, action: Action)
    requires s.pRemaining == 0 && s.dRemaining == 0
    ensures ApplyAction(s, action).Err? && ApplyAction(s, action).error.Invalid?
  {
  }
}
