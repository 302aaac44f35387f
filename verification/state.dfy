/**
 * The game state: the hand, the internal draw-order deck, the two budgets
 * and the running score. A new game deals the first seven cards of a
 * shuffled canonical deck; the public view shows everything except the
 * deck's composition and order.
 */
module State {
  import opened Seqs
  import opened Cards
  import opened Json

  const INITIAL_HAND_SIZE: nat := 7
  const INITIAL_P: nat := 4
  const INITIAL_D: nat := 10

  datatype GameState = GameState(
    hand: seq<Card>,
    deck: seq<Card>,
    pRemaining: int,
    dRemaining: int,
    scoreTotal: int
  )

  /** The shuffled deck is some reordering of the canonical 52-card deck. */
  predicate IsShuffledDeck(shuffled: seq<Card>)
  {
    multiset(shuffled) == multiset(StandardDeck())
  }

  /**
   * A new game from a shuffled deck (the seeded shuffle itself is the
   * parameter): the first seven cards are the hand, the other 45 the draw
   * pile, with the initial budgets and a zero score. Hand and pile together
   * are the whole deck, each card once.
   */
  function FromSeed(shuffled: seq<Card>): (s: GameState)
    requires IsShuffledDeck(shuffled)
    ensures |shuffled| == 52
    ensures s.hand == shuffled[..INITIAL_HAND_SIZE] && s.deck == shuffled[INITIAL_HAND_SIZE..]
    ensures |s.hand| == 7 && |s.deck| == 45
    ensures s.pRemaining == 4 && s.dRemaining == 10 && s.scoreTotal == 0
    ensures multiset(s.hand) + multiset(s.deck) == multiset(StandardDeck())
    ensures Distinct(s.hand + s.deck)
    ensures forall c :: c in s.hand + s.deck ==> IsValidCard(c)
  {
    StandardDeckValidAndDistinct();
    assert |shuffled| == |multiset(shuffled)| == 52;
    DistinctSubMultiset(shuffled, StandardDeck());
    assert shuffled == shuffled[..INITIAL_HAND_SIZE] + shuffled[INITIAL_HAND_SIZE..];
    forall c | c in shuffled ensures IsValidCard(c) {
      assert c in multiset(StandardDeck());
    }
    GameState(shuffled[..INITIAL_HAND_SIZE], shuffled[INITIAL_HAND_SIZE..], INITIAL_P, INITIAL_D, 0)
  }

  /** The only deck information that is public. */
  function DeckRemainingCount(s: GameState): (n: nat)
    ensures n == |s.deck|
  {
    |s.deck|
  }

  /** The public view: hand, deck size, budgets and score, and nothing about the deck's cards. */
  function ToPublicDict(s: GameState): (j: JsonValue)
    ensures j.JObject?
    ensures j.fields.Keys == {"hand", "deck_remaining_count", "p_remaining", "d_remaining", "score_total"}
    ensures "deck" !in j.fields
    ensures j.fields["hand"] == StrArray(s.hand)
    ensures j.fields["deck_remaining_count"] == JInt(|s.deck|)
    ensures j.fields["p_remaining"] == JInt(s.pRemaining)
    ensures j.fields["d_remaining"] == JInt(s.dRemaining)
    ensures j.fields["score_total"] == JInt(s.scoreTotal)
  {
    JObject(map[
      "hand" := StrArray(s.hand),
      "deck_remaining_count" := JInt(DeckRemainingCount(s)),
      "p_remaining" := JInt(s.pRemaining),
      "d_remaining" := JInt(s.dRemaining),
      "score_total" := JInt(s.scoreTotal)
    ])
  }

  /**
   * Two states have the same public view exactly when they agree on
   * everything but the deck's contents and order, of which only the size
   * shows.
   */
  lemma PublicViewHidesDeck(s: GameState, t: GameState)
    ensures ToPublicDict(s) == ToPublicDict(t) <==>
      s.hand == t.hand && |s.deck| == |t.deck| && s.pRemaining == t.pRemaining &&
      s.dRemaining == t.dRemaining && s.scoreTotal == t.scoreTotal
  {
  }
}
