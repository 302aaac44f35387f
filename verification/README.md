# Poker rules engine — a verified Dafny model

The engine runs a single-player poker-style card game. A new game deals
seven cards from a shuffled 52-card deck, leaving 45 to draw from. The
player then has four plays and a budget of ten discarded cards.

- A **PLAY** names exactly five hand positions. Those cards are scored as a
  five-card poker hand, with no best-of-seven search. The hand category is
  looked up in a points table, and straight flushes pay a jackpot.
- A **DISCARD** names one to min(hand size, discard budget) positions and
  spends one discard per card.

In both cases the chosen positions leave the hand, the other cards keep
their order, and replacements come from the front of the deck. The hand
always returns to seven cards.

The model follows the engine file by file, one Dafny module per file:

| module | engine file | what it holds |
|---|---|---|
| `Cards` | `engine/cards.py` | Card tokens ("AS", "7H"), the rank and suit alphabets, rank values, parsing, the canonical deck and the sort key |
| `Evaluator` | `engine/evaluator.py` | The five-card category classifier, the straight test (wheel included), and the split of categories into jackpot and model categories |
| `Scoring` | `engine/scoring.py` | The gameplay and model points tables, the lookups, the two five-card scores and the table self-check |
| `Actions` | `engine/actions.py` | The action record, its validation against hand length and budgets (every reason in the source's order), and its JSON form |
| `State` | `engine/state.py` | The game state record, the deal from a shuffled deck, and the public view that hides the deck |
| `Rules` | `engine/rules.py` | Drawing from the deck, splitting the hand into kept and removed cards (a method with a loop), and the transition `ApplyAction` |
| `Game` | `engine/rules.py` with `engine/state.py` | The invariant of reachable states, preserved by every successful step |

Three helper modules complete the model:

- `Wrappers`: `Option`, `Result` and `Outcome`. Every exception the source raises becomes a typed error value.
- `Seqs`: distinctness, sets of sequences, maps, and permutations.
- `Json`: a small JSON value type for the dictionary conversions.

Errors are datatypes whose constructors match the source's distinct
failure reasons, e.g. `NoPlaysRemaining`, `PlayRequiresFive`,
`DiscardBudgetExceeded`, `DuplicateIndices`, `IndexOutOfBounds`, `DeckUnderflow`
and `HandSizeInvariant`.

## Model

| member | source | states |
|---|---|---|
| Cards.ParseCard | engine/cards.py:29-44 | Succeeds exactly on valid tokens, i.e. length 2, rank in RANKS and suit in SUITS. The two parts concatenate back to the token. Any other token fails with an invalid-card error |
| Cards.AlphabetsDistinct | engine/cards.py:22-23 | The rank and suit alphabets have no repeated letter |
| Cards.RankValueMatchesRanks | engine/cards.py:22-26 | RANK_VALUE has exactly the 13 ranks as keys. The rank at position i is worth i + 2, so values run 2..14 and strictly increase along RANKS |
| Cards.RankValueInjective | engine/cards.py:26 | Two ranks have the same value exactly when they are the same rank |
| Cards.StandardDeckRankMajor | engine/cards.py:47-55 | The deck has 52 entries. Entry i is RANKS[i / 4] followed by SUITS[i % 4], so it starts with "2S" and ends with "AC" |
| Cards.StandardDeckValidAndDistinct | engine/cards.py:47-55 | Every deck entry is a valid card and no entry repeats |
| Cards.ValidIffInDeck | engine/cards.py:29-55 | A token is valid exactly when it is in the canonical deck |
| Cards.CardSortKey | engine/cards.py:58-64 | Defined exactly on valid cards. The key is a rank value in 2..14 and a suit index in 0..3 |
| Cards.SortKeyInjective | engine/cards.py:58-64 | On valid cards, equal keys mean equal cards |
| Cards.StandardDeckKeyAt | engine/cards.py:55-64 | The key of deck entry i is (i / 4 + 2, i % 4) |
| Cards.StandardDeckSortedByKey | engine/cards.py:47-64 | The canonical deck is strictly increasing by sort key |
| Evaluator.RankOf | engine/evaluator.py:91-93 | The value of a valid card's rank lies in 2..14 |
| Evaluator.Ranks | engine/evaluator.py:89-94 | One rank value per card, in card order |
| Evaluator.Suits | engine/evaluator.py:89-94 | One suit letter per card, in card order |
| Evaluator.CountsSorted | engine/evaluator.py:96-97 | The counter's values sorted in descending order. The list never increases and every entry is at least 1. For ranks in 2..14, each multiplicity k occurs in the list exactly as many times as there are distinct ranks occurring k times in the hand |
| Evaluator.CountsAreMultiplicities | engine/evaluator.py:96-97 | For ranks in 2..14, the number of times k >= 1 occurs in the counts equals the number of distinct ranks with multiplicity k |
| Evaluator.CountsSumToCards | engine/evaluator.py:96-97 | For ranks in 2..14 the counts add up to the number of ranks, so every card is counted exactly once |
| Evaluator.Evaluate5CardCategory | engine/evaluator.py:56-127 | Fails in order on a count other than 5, then on an invalid card, then on a duplicate card, each exactly when its condition holds first. It succeeds exactly on five valid distinct cards, and then returns the classifier's category |
| Evaluator.StraightIffRun | engine/evaluator.py:130-155 | For ranks in 2..14, the straight test holds exactly when the set of ranks is five consecutive values or the wheel {2,3,4,5,14} |
| Evaluator.StraightHasDistinctRanks | engine/evaluator.py:145-147 | Five ranks that form a straight are pairwise distinct |
| Evaluator.FlushIffSameSuit | engine/evaluator.py:99 | The suit set has one element exactly when every card has the suit of the first |
| Evaluator.SameSuitDistinctRanks | engine/evaluator.py:85-99 | Distinct cards of one suit have distinct ranks |
| Evaluator.DistinctRanksCountsSorted | engine/evaluator.py:96-97 | Five distinct ranks give the counts [1, 1, 1, 1, 1] |
| Evaluator.ClassifyMatchesPokerRules | engine/evaluator.py:99-127 | On five valid distinct cards, each of the nine categories holds exactly when its poker condition holds. Straight flush means straight and flush; flush means flush and not straight; four of a kind means counts [4,1]; and so on down to high card when nothing else holds. No higher rule shadows a lower one |
| Evaluator.EvaluateTotalOnDeckHands | engine/evaluator.py:56-87 | Any five distinct cards of the canonical deck are classified without error |
| Evaluator.RanksSuitsPermutation | engine/evaluator.py:89-94 | Reordering the cards reorders the rank and suit lists, so their multisets are unchanged |
| Evaluator.ClassifyOrderInvariant | engine/evaluator.py:89-127 | The category of five valid cards does not depend on their order |
| Evaluator.EvaluateOrderInvariant | engine/evaluator.py:56-127 | The evaluator's result, error or category, is the same for every reordering of the input |
| Evaluator.AllCategoriesSplit | engine/evaluator.py:180-194 | ALL_CATEGORIES is the model categories followed by the jackpot categories |
| Evaluator.ModelCategoriesValue | engine/evaluator.py:192-194 | MODEL_CATEGORIES is ALL_CATEGORIES with the jackpot categories filtered out, in the same order |
| Evaluator.InModelCategories | engine/evaluator.py:192-194 | A category is a model category exactly when it is not the straight flush |
| Evaluator.WithoutJackpotsMembers | engine/evaluator.py:192-194 | Filtering keeps exactly the members that are not jackpot categories |
| Evaluator.IsJackpotCategory | engine/evaluator.py:197-220 | True exactly for the straight flush, i.e. exactly for the categories outside MODEL_CATEGORIES |
| Evaluator.NormalizeModelCategory | engine/evaluator.py:223-251 | The result is always a model category. A model category maps to itself and the jackpot category maps to a flush |
| Scoring.PointsForCategoryGameplay | engine/scoring.py:85-104 | Every category has gameplay points and they are positive. They equal JACKPOT_POINTS exactly for the straight flush |
| Scoring.PointsForCategoryModel | engine/scoring.py:107-133 | Every category has model points, equal to the gameplay points of its normalized category and below the jackpot |
| Scoring.GameplayPointsIncreasing | engine/scoring.py:58-68 | Along ALL_CATEGORIES the gameplay points strictly increase |
| Scoring.JackpotCollapsesInModel | engine/scoring.py:130-133 | The straight flush pays 999999 in gameplay. In the model it pays exactly what a flush pays, which is less |
| Scoring.ModelPointsNormalizeInvariant | engine/scoring.py:116-133 | Model points are the same for a raw category and for its normalized form |
| Scoring.TablesAgreeOutsideJackpot | engine/scoring.py:58-82 | The two tables agree on every category that is not a jackpot |
| Scoring.TableKeys | engine/scoring.py:58-82 | The gameplay table's keys are exactly ALL_CATEGORIES and the model table's keys are exactly MODEL_CATEGORIES |
| Scoring.ValidateScoringTables | engine/scoring.py:187-209 | The shipped tables pass the coverage checks and the positive-high-card check |
| Scoring.Score5CardHandGameplay | engine/scoring.py:136-155 | Succeeds exactly when the evaluator does, and passes the evaluator's error on unchanged. The category is the evaluator's, and the points are that category's entry in the gameplay table. They are positive and equal the jackpot exactly for a straight flush |
| Scoring.Score5CardHandModel | engine/scoring.py:158-184 | Succeeds exactly when the evaluator does. The category is the normalized evaluator category, which lies in MODEL_CATEGORIES, and the points are that category's model points |
| Scoring.ModelScoreVersusGameplay | engine/scoring.py:136-184 | The two scores succeed or fail together with the same error. They coincide except on a straight flush, which the model scores as a flush |
| Scoring.ScoreOrderInvariant | engine/scoring.py:136-184 | Both scores ignore the order of the five cards |
| Actions.FirstOutOfBounds | engine/actions.py:73-75 | Finds the first index outside [0, handLen); there is none exactly when every index is in range |
| Actions.ValidateUniqueInBounds | engine/actions.py:67-75 | Passes exactly when the indices are distinct and in range. A negative hand length is reported first, then a repeated index, then an out-of-range index that is one of the given indices |
| Actions.ValidateAction | engine/actions.py:78-126 | Passes exactly on legal actions. A PLAY needs a play left and five distinct in-range indices. A DISCARD needs a discard left and 1..min(hand, budget) distinct in-range indices. Each rejection is the first failing check, in this order: negative budgets, then the type's budget and count checks, then the index check. Once the budget and count checks pass, the result is the index check's result: negative hand length, then a duplicate, then the first out-of-range index |
| Actions.DistinctPositionsFit | engine/actions.py:67-75 | n distinct in-range positions of a hand need n <= hand length |
| Actions.LegalSelectionFitsHand | engine/actions.py:78-123 | A valid PLAY implies a hand of at least five cards. A valid DISCARD selects between one card and the whole hand |
| Actions.EnsureIntIndices | engine/actions.py:56-64 | Accepts exactly lists of integers, keeping their values in order. Otherwise it reports the first item that is not an integer (a boolean or a float is not one) |
| Actions.ActionFromDict | engine/actions.py:129-151 | Rejects, in order, a non-object, a missing or unknown "type", a missing or non-list "selected_indices", and a non-integer index, reported as the first non-integer item of the list. It succeeds exactly when none applies, and the action then carries the request's type (PLAY or DISCARD) and its indices in order |
| Actions.ActionToDict | engine/actions.py:154-159 | The JSON form has exactly the keys "type" and "selected_indices" |
| Actions.ActionRoundTrip | engine/actions.py:129-159 | Serializing a PLAY or DISCARD action and parsing it back gives the same action |
| Actions.ParsedActionMatchesRequest | engine/actions.py:139-159 | A request that parses is an object, and serializing the parsed action reproduces the request's "type" and "selected_indices" entries |
| State.FromSeed | engine/state.py:44-64 | From any shuffle of the canonical deck: the hand is its first 7 cards and the deck its other 45. Budgets are 4 and 10 and the score 0. Hand and deck together are the canonical deck, each card once and all valid |
| State.ToPublicDict | engine/state.py:71-82 | The public view has exactly the keys hand, deck_remaining_count, p_remaining, d_remaining and score_total, and never "deck". Under each key it stores the hand, the deck's size, the play budget, the discard budget and the score respectively |
| State.PublicViewHidesDeck | engine/state.py:71-82 | Two states have equal public views exactly when they agree on hand, deck size, budgets and score, so nothing about the deck's cards shows |
| Rules.DrawFromDeck | engine/rules.py:40-58 | Succeeds exactly when 0 <= n <= deck size. A negative count fails first, then underflow. The drawn cards number n and, followed by the rest, make up the deck |
| Rules.RemoveIndicesPreserveOrder | engine/rules.py:61-78 | The loop returns the cards at unselected positions and the cards at selected positions, each in hand order |
| Rules.SplitConserves | engine/rules.py:70-78 | Kept and removed cards together are, as a multiset, the hand |
| Rules.SplitSizes | engine/rules.py:70-78 | Kept and removed cards together number the hand's size |
| Rules.RemovedMembers | engine/rules.py:73-75 | A card is removed exactly when it sits at a selected position |
| Rules.SelectionSizes | engine/rules.py:110 | With distinct in-range indices, one card per index is removed and the rest are kept |
| Rules.RemovedDistinct | engine/rules.py:110-142 | The removed cards of a hand with no repeated card have no repeats |
| Rules.ApplyRejectsInvalid | engine/rules.py:102-107 | An action the validator rejects yields that rejection reason and no state |
| Rules.ApplyDiscard | engine/rules.py:112-138 | For a valid DISCARD of n cards: underflow fails first, then the hand-size invariant. Otherwise the hand is the kept cards plus the first n deck cards, the deck loses them, and d drops by n and stays >= 0. p and the score are unchanged, and the event records the discarded and drawn cards and the new d |
| Rules.ApplyPlayFailures | engine/rules.py:140-150 | A valid PLAY removes exactly five cards. A scoring error is reported first, then deck underflow, then the hand-size invariant |
| Rules.ApplyPlay | engine/rules.py:140-171 | A valid PLAY scores exactly the removed cards. The hand is the kept cards plus the first five deck cards, the deck loses them, p drops by one and the score grows by the points. d is unchanged, and the event records played cards, category, points, drawn cards and the new counters |
| Rules.ApplyInvariants | engine/rules.py:110-171 | A successful step starts and ends with seven cards and keeps budgets >= 0. It does not lower the score, and the new hand, the new deck and the removed cards are together the old hand and deck |
| Game.NewGameConsistent | engine/state.py:44-64 | A new game dealt from any shuffle is a consistent state |
| Game.StepPreservesConsistent | engine/rules.py:81-171 | Consistency holds after every successful step. A consistent state has a 7-card hand, budgets within their initial values, a deck size fixed by the budgets spent, and no card twice. Every step spends at least one unit of budget, so a game has at most 14 steps |
| Game.ConsistentPlayScores | engine/rules.py:140-143 | From a consistent state, the five cards a valid PLAY removes always score |
| Game.ConsistentStepFailsOnlyOnValidation | engine/rules.py:81-174 | From a consistent state a step succeeds exactly when the action validates, and fails only with the validator's reason. Underflow, the hand-size error and a scoring error cannot occur |
| Game.PublicDeckCountFromBudgets | engine/state.py:66-69 | On a reachable state, the deck count shown publicly is 45 minus five per play and one per discarded card. It follows from the public budgets |
| Game.PublicViewDeterminedByBudgets | engine/state.py:71-82 | Two reachable states show the same public view exactly when they agree on hand, budgets and score, so the view reveals nothing about the deck |
| Game.ExhaustedBudgetsRejectAll | engine/actions.py:103-114 | With no plays and no discards left, every action is rejected |

## Left out

- The seeded shuffle (`engine/rng.py` and the shuffle in `engine/state.py:50-53`) uses Python's Mersenne Twister, which is not part of this model. `State.FromSeed` instead takes the shuffled deck as a parameter, together with the requirement that it is a reordering of the canonical deck. The seed-to-permutation mapping is not modelled. Neither is the in-place shuffle of a fresh list.
- Seed validation is not modelled. `engine/rng.py` has a seed check, but `from_seed` builds its generator without calling it. Since the model takes the shuffled deck rather than a seed, neither the check nor its absence shows.
- Dynamic-type guards are kept only where the JSON value type can express them. Non-string card tokens (`engine/cards.py:31`) cannot occur because a card is a string. Boolean and float indices are rejected by `Actions.EnsureIntIndices`.
- Categories are a closed datatype, so an unknown category string cannot be written. As a result, the unknown-category error paths in `Scoring.PointsForCategoryGameplay` and `Scoring.PointsForCategoryModel` are kept but proved unreachable. The same applies to `normalize_model_category` passing an unknown string through unchanged.
- Error messages are constructors, not free text. Events are a datatype, not dictionaries.
- `GameState` is an immutable datatype. The source builds every new state with `replace` and never mutates the old one.
- The unknown-action-type branch at the end of `apply_action` (`engine/rules.py:173-174`) is modelled. Validation rejects such actions first, so the model never reaches that branch.
- A public view with deck composition is not part of this model, because `to_public_dict` does not implement one.
