/**
 * The transition function. An action is validated against the state, the
 * selected positions are taken out of the hand (the rest keep their order),
 * and replacements are drawn from the front of the deck. A DISCARD spends
 * one discard per card; a PLAY scores exactly the five removed cards and
 * spends one play. Each successful step yields the next state and one event.
 */
module Rules {
  import opened Wrappers
  import opened Seqs
  import opened Cards
  import opened Evaluator
  import opened Scoring
  import opened Actions
  import opened State

  datatype DrawError = NegativeDraw(n: int) | DeckUnderflow(need: int, remaining: nat)

  /** What happened in one step, for logging and replay. */
  datatype Event =
    | DiscardEvent(discarded: seq<Card>, drawn: seq<Card>, dRemainingAfter: int)
    | PlayEvent(played: seq<Card>, category: Category, points: int, drawn: seq<Card>,
                pRemainingAfter: int, scoreTotalAfter: int)

  datatype RuleError =
    | Invalid(reason: ActionError)
    | ScoringFailed(scoringError: ScoringError)
    | DrawFailed(drawError: DrawError)
    | HandSizeInvariant(size: nat)

  // ---------------------------------------------------------------------------
  // Drawing
  // ---------------------------------------------------------------------------

  /**
   * Draws n cards from the front of the deck: the drawn cards and the rest,
   * which together are the deck. A negative count is rejected first, then a
   * count larger than the deck.
   */
  function DrawFromDeck(deck: seq<Card>, n: int): (r: Result<(seq<Card>, seq<Card>), DrawError>)
    ensures r.Ok? <==> 0 <= n <= |deck|
    ensures n < 0 ==> r == Err(NegativeDraw(n))
    ensures 0 <= n && n > |deck| ==> r == Err(DeckUnderflow(n, |deck|))
    ensures r.Ok? ==> |r.value.0| == n && r.value.0 + r.value.1 == deck
  {
    if n < 0 then Err(NegativeDraw(n))
    else if n > |deck| then Err(DeckUnderflow(n, |deck|))
    else
      assert deck == deck[..n] + deck[n..];
      Ok((deck[..n], deck[n..]))
  }

  // ---------------------------------------------------------------------------
  // Removing positions from the hand
  // ---------------------------------------------------------------------------

  /** The cards among the first n of the hand whose positions are not selected, in hand order. */
  function Kept<T>(hand: seq<T>, sel: set<int>, n: nat): seq<T>
    requires n <= |hand|
  {
    if n == 0 then [] else Kept(hand, sel, n - 1) + (if n - 1 in sel then [] else [hand[n - 1]])
  }

  /** The cards among the first n of the hand whose positions are selected, in hand order. */
  function Removed<T>(hand: seq<T>, sel: set<int>, n: nat): seq<T>
    requires n <= |hand|
  {
    if n == 0 then [] else Removed(hand, sel, n - 1) + (if n - 1 in sel then [hand[n - 1]] else [])
  }

  /**
   * Splits the hand into the cards at unselected and at selected positions,
   * both in hand order, in one pass over the hand.
   */
  method RemoveIndicesPreserveOrder(hand: seq<Card>, indices: seq<int>) returns (kept: seq<Card>, removed: seq<Card>)
    ensures kept == Kept(hand, ToSet(indices), |hand|)
    ensures removed == Removed(hand, ToSet(indices), |hand|)
  {
    var idxSet := ToSet(indices);
    kept, removed := [], [];
    var i := 0;
    while i < |hand|
      invariant 0 <= i <= |hand|
      invariant kept == Kept(hand, idxSet, i)
      invariant removed == Removed(hand, idxSet, i)
    {
      if i in idxSet {
        removed := removed + [hand[i]];
      } else {
        kept := kept + [hand[i]];
      }
      i := i + 1;
    }
  }

  /** Looking at one more card of the hand adds it to exactly one of the two parts. */
  lemma SplitStep<T>(hand: seq<T>, sel: set<int>, n: nat)
    requires 0 < n <= |hand|
    ensures multiset(Kept(hand, sel, n)) + multiset(Removed(hand, sel, n)) ==
      multiset(Kept(hand, sel, n - 1)) + multiset(Removed(hand, sel, n - 1)) + multiset{hand[n - 1]}
  {
  }

  /** The kept and removed cards partition the hand's first n cards. */
  lemma {:induction false} SplitConserves<T>(hand: seq<T>, sel: set<int>, n: nat)
    requires n <= |hand|
    ensures multiset(Kept(hand, sel, n)) + multiset(Removed(hand, sel, n)) == multiset(hand[..n])
  {
    if n > 0 {
      SplitConserves(hand, sel, n - 1);
      SplitStep(hand, sel, n);
      var prefix, c := hand[..n - 1], hand[n - 1];
      assert hand[..n] == prefix + [c];
      assert multiset(hand[..n]) == multiset(prefix) + multiset{c};
      var whole := multiset(Kept(hand, sel, n)) + multiset(Removed(hand, sel, n));
      var before := multiset(Kept(hand, sel, n - 1)) + multiset(Removed(hand, sel, n - 1));
      forall y ensures whole[y] == multiset(hand[..n])[y] {
        assert whole[y] == before[y] + multiset{c}[y];
      }
    }
  }

  /** Hence the kept and removed cards number n together. */
  lemma SplitSizes<T>(hand: seq<T>, sel: set<int>, n: nat)
    requires n <= |hand|
    ensures |Kept(hand, sel, n)| + |Removed(hand, sel, n)| == n
  {
    SplitConserves(hand, sel, n);
    assert |multiset(hand[..n])| == n;
  }

  /** A card is removed exactly when it sits at a selected position. */
  lemma {:induction false} RemovedMembers(hand: seq<Card>, sel: set<int>, n: nat)
    requires n <= |hand|
    ensures forall c :: c in Removed(hand, sel, n) <==> exists i :: 0 <= i < n && i in sel && hand[i] == c
  {
    if n > 0 {
      RemovedMembers(hand, sel, n - 1);
    }
  }

  /** The selected positions below n. */
  function SelectedBelow(sel: set<int>, n: nat): set<int>
  {
    set i | i in sel && 0 <= i < n
  }

  /** One card is removed per selected position. */
  lemma {:induction false} RemovedCount(hand: seq<Card>, sel: set<int>, n: nat)
    requires n <= |hand|
    ensures |Removed(hand, sel, n)| == |SelectedBelow(sel, n)|
  {
    if n > 0 {
      RemovedCount(hand, sel, n - 1);
      if n - 1 in sel {
        assert SelectedBelow(sel, n) == SelectedBelow(sel, n - 1) + {n - 1};
      } else {
        assert SelectedBelow(sel, n) == SelectedBelow(sel, n - 1);
      }
    }
  }

  /** With distinct in-range indices, exactly one card per index is removed and the rest are kept. */
  lemma SelectionSizes(hand: seq<Card>, indices: seq<int>)
    requires UniqueInBounds(indices, |hand|)
    ensures |Removed(hand, ToSet(indices), |hand|)| == |indices|
    ensures |Kept(hand, ToSet(indices), |hand|)| == |hand| - |indices|
  {
    var sel := ToSet(indices);
    RemovedCount(hand, sel, |hand|);
    assert SelectedBelow(sel, |hand|) == sel;
    DistinctIffSetSize(indices);
    SplitSizes(hand, sel, |hand|);
  }

  /** Removed cards of a hand with no repeats have no repeats either. */
  lemma RemovedDistinct(hand: seq<Card>, sel: set<int>)
    requires Distinct(hand)
    ensures Distinct(Removed(hand, sel, |hand|))
  {
    SplitConserves(hand, sel, |hand|);
    assert hand[..|hand|] == hand;
    DistinctSubMultiset(Removed(hand, sel, |hand|), hand);
  }

  // ---------------------------------------------------------------------------
  // The transition
  // ---------------------------------------------------------------------------

  /**
   * The end of a DISCARD: n replacements are drawn from the front of the
   * deck and appended to the kept cards, which must give a full hand; the
   * discard budget drops by n.
   */
  function CompleteDiscard(state: GameState, kept: seq<Card>, removed: seq<Card>, n: int): Result<(GameState, seq<Event>), RuleError>
  {
    match DrawFromDeck(state.deck, n)
    case Err(e) => Err(DrawFailed(e))
    case Ok((drawn, nextDeck)) =>
      var nextHand := kept + drawn;
      if |nextHand| != INITIAL_HAND_SIZE then Err(HandSizeInvariant(|nextHand|))
      else
        var next := state.(hand := nextHand, deck := nextDeck, dRemaining := state.dRemaining - n);
        Ok((next, [DiscardEvent(removed, drawn, next.dRemaining)]))
  }

  /**
   * The end of a scored PLAY: five replacements are drawn and appended to
   * the kept cards, which must give a full hand; one play is spent and the
   * points are added to the score.
   */
  function CompletePlay(state: GameState, kept: seq<Card>, removed: seq<Card>, category: Category, points: int): Result<(GameState, seq<Event>), RuleError>
  {
    match DrawFromDeck(state.deck, 5)
    case Err(e) => Err(DrawFailed(e))
    case Ok((drawn, nextDeck)) =>
      var nextHand := kept + drawn;
      if |nextHand| != INITIAL_HAND_SIZE then Err(HandSizeInvariant(|nextHand|))
      else
        var next := state.(hand := nextHand, deck := nextDeck,
                           pRemaining := state.pRemaining - 1, scoreTotal := state.scoreTotal + points);
        Ok((next, [PlayEvent(removed, category, points, drawn, next.pRemaining, next.scoreTotal)]))
  }

  /**
   * Applies an action. Validation comes first and its reason is passed on.
   * DISCARD draws as many cards as were removed and spends that many
   * discards. PLAY scores the removed cards before drawing five and spends
   * one play. In both cases the new hand must have INITIAL_HAND_SIZE cards.
   */
  function ApplyAction(state: GameState, action: Action): (r: Result<(GameState, seq<Event>), RuleError>)
  {
    match ValidateAction(action, |state.hand|, state.pRemaining, state.dRemaining)
    case Fail(reason) => Err(Invalid(reason))
    case Pass =>
      var sel := ToSet(action.selectedIndices);
      var kept := Kept(state.hand, sel, |state.hand|);
      var removed := Removed(state.hand, sel, |state.hand|);
      if action.kind == DISCARD then
        CompleteDiscard(state, kept, removed, |removed|)
      else if action.kind == PLAY then
        match Score5CardHandGameplay(removed)
        case Err(e) => Err(ScoringFailed(e))
        case Ok((category, points)) => CompletePlay(state, kept, removed, category, points)
      else Err(Invalid(UnknownActionType(action.kind)))
  }

  /** A rejected action is reported with the validator's own reason, and no state results. */
  lemma ApplyRejectsInvalid(state: GameState, action: Action)
    requires ValidateAction(action, |state.hand|, state.pRemaining, state.dRemaining).Fail?
    ensures ApplyAction(state, action) ==
      Err(Invalid(ValidateAction(action, |state.hand|, state.pRemaining, state.dRemaining).error))
  {
  }

  /** The cards a valid action removes from the hand. */
  function Selected(state: GameState, action: Action): seq<Card>
  {
    Removed(state.hand, ToSet(action.selectedIndices), |state.hand|)
  }

  /** The cards a valid action leaves in the hand. */
  function Unselected(state: GameState, action: Action): seq<Card>
  {
    Kept(state.hand, ToSet(action.selectedIndices), |state.hand|)
  }

  /**
   * A DISCARD of n cards that passes validation, on a deck of at least n
   * cards and a hand of INITIAL_HAND_SIZE cards: the hand is the kept cards
   * followed by the first n cards of the deck, the deck loses those n cards,
   * the discard budget drops by n (and stays non-negative), and plays and
   * score are unchanged. The event records the removed and drawn cards.
   */
  lemma ApplyDiscard(state: GameState, action: Action)
    requires ValidateAction(action, |state.hand|, state.pRemaining, state.dRemaining) == Pass
    requires action.kind == DISCARD
    ensures |Selected(state, action)| == |action.selectedIndices|
    ensures var n := |action.selectedIndices|;
      ApplyAction(state, action) ==
        if n > |state.deck| then Err(DrawFailed(DeckUnderflow(n, |state.deck|)))
        else if |state.hand| != INITIAL_HAND_SIZE then Err(HandSizeInvariant(|state.hand|))
        else Ok((state.(hand := Unselected(state, action) + state.deck[..n], deck := state.deck[n..],
                        dRemaining := state.dRemaining - n),
                 [DiscardEvent(Selected(state, action), state.deck[..n], state.dRemaining - n)]))
    ensures ApplyAction(state, action).Ok? ==> ApplyAction(state, action).value.0.dRemaining >= 0
  {
    SelectionSizes(state.hand, action.selectedIndices);
  }

  /**
   * A PLAY that passes validation scores exactly the five removed cards, and
   * fails in this order: a scoring error first, then a deck of fewer
   * than five cards, then a hand that was not of INITIAL_HAND_SIZE cards.
   */
  lemma ApplyPlayFailures(state: GameState, action: Action)
    requires ValidateAction(action, |state.hand|, state.pRemaining, state.dRemaining) == Pass
    requires action.kind == PLAY
    ensures |Selected(state, action)| == 5
    ensures var score := Score5CardHandGameplay(Selected(state, action));
      score.Err? ==> ApplyAction(state, action) == Err(ScoringFailed(score.error))
    ensures Score5CardHandGameplay(Selected(state, action)).Ok? && |state.deck| < 5 ==>
      ApplyAction(state, action) == Err(DrawFailed(DeckUnderflow(5, |state.deck|)))
    ensures (Score5CardHandGameplay(Selected(state, action)).Ok? && |state.deck| >= 5 &&
             |state.hand| != INITIAL_HAND_SIZE) ==> ApplyAction(state, action) == Err(HandSizeInvariant(|state.hand|))
  {
    SelectionSizes(state.hand, action.selectedIndices);
    var score := Score5CardHandGameplay(Selected(state, action));
    if score.Err? {
      assert ApplyAction(state, action) == Err(ScoringFailed(score.error));
    } else if |state.deck| < 5 {
      assert DrawFromDeck(state.deck, 5) == Err(DeckUnderflow(5, |state.deck|));
    } else {
      assert |Unselected(state, action) + state.deck[..5]| == |state.hand|;
    }
  }

  /** With a long enough deck and a kept part that refills to a full hand, a scored PLAY completes. */
  lemma CompletePlayOk(state: GameState, kept: seq<Card>, removed: seq<Card>, category: Category, points: int)
    requires |state.deck| >= 5 && |kept| + 5 == INITIAL_HAND_SIZE
    ensures CompletePlay(state, kept, removed, category, points) ==
      Ok((state.(hand := kept + state.deck[..5], deck := state.deck[5..],
                 pRemaining := state.pRemaining - 1, scoreTotal := state.scoreTotal + points),
          [PlayEvent(removed, category, points, state.deck[..5], state.pRemaining - 1, state.scoreTotal + points)]))
  {
  }

  /** A valid PLAY that scores goes on to complete with the kept and removed cards. */
  lemma PlayCompletes(state: GameState, action: Action, category: Category, points: int)
    requires ValidateAction(action, |state.hand|, state.pRemaining, state.dRemaining) == Pass
    requires action.kind == PLAY
    ensures Score5CardHandGameplay(Selected(state, action)) == Ok((category, points)) ==>
      ApplyAction(state, action) == CompletePlay(state, Unselected(state, action), Selected(state, action), category, points)
  {
  }

  /**
   * A PLAY that passes validation, scores, and starts from a hand of
   * INITIAL_HAND_SIZE cards and a deck of at least five: the hand is the
   * kept cards followed by the first five cards of the deck, the deck loses
   * them, one play is spent, the score grows by the points of the removed
   * cards, and the discard budget is unchanged. The one event records the
   * played cards, their category and points, and the drawn cards.
   */
  lemma ApplyPlay(state: GameState, action: Action, category: Category, points: int)
    requires ValidateAction(action, |state.hand|, state.pRemaining, state.dRemaining) == Pass
    requires action.kind == PLAY
    requires |state.deck| >= 5 && |state.hand| == INITIAL_HAND_SIZE
    ensures Score5CardHandGameplay(Selected(state, action)) == Ok((category, points)) ==>
      ApplyAction(state, action) ==
      Ok((state.(hand := Unselected(state, action) + state.deck[..5], deck := state.deck[5..],
                 pRemaining := state.pRemaining - 1, scoreTotal := state.scoreTotal + points),
          [PlayEvent(Selected(state, action), category, points, state.deck[..5],
                     state.pRemaining - 1, state.scoreTotal + points)]))
  {
    SelectionSizes(state.hand, action.selectedIndices);
    PlayCompletes(state, action, category, points);
    if Score5CardHandGameplay(Selected(state, action)) == Ok((category, points)) {
      CompletePlayOk(state, Unselected(state, action), Selected(state, action), category, points);
    }
  }

  /**
   * Every successful step starts from and ends in a hand of seven cards,
   * keeps both budgets non-negative, does not lower the score, and moves
   * cards without creating or losing any: the new hand and deck plus the
   * removed cards are the old hand and deck.
   */
  lemma ApplyInvariants(state: GameState, action: Action)
    requires ApplyAction(state, action).Ok?
    ensures var next := ApplyAction(state, action).value.0;
      && |state.hand| == INITIAL_HAND_SIZE && |next.hand| == INITIAL_HAND_SIZE
      && next.pRemaining >= 0 && next.dRemaining >= 0
      && next.scoreTotal >= state.scoreTotal
      && multiset(next.hand) + multiset(next.deck) + multiset(Selected(state, action)) ==
         multiset(state.hand) + multiset(state.deck)
  {
    var sel := ToSet(action.selectedIndices);
    SplitConserves(state.hand, sel, |state.hand|);
    assert state.hand[..|state.hand|] == state.hand;
    if action.kind == DISCARD {
      ApplyDiscard(state, action);
    } else {
      ApplyPlayFailures(state, action);
      var score := Score5CardHandGameplay(Selected(state, action));
      if score.Ok? {
        ApplyPlay(state, action, score.value.0, score.value.1);
      }
    }
    var n := |action.selectedIndices|;
    assert state.deck == state.deck[..n] + state.deck[n..];
  }
}
