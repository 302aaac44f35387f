/**
 * The card model: two-character rank/suit tokens ("AS", "7H", "TD"), the
 * rank alphabet with its numeric values, and the canonical 52-card deck in
 * rank-major order.
 */
module Cards {
  import opened Wrappers
  import opened Seqs

  /** A card token: rank character followed by suit character. */
  type Card = string

  const RANKS: seq<char> := "23456789TJQKA"
  const SUITS: seq<char> := "SHDC"

  /** The rank values: '2' -> 2 up to 'A' -> 14, i.e. position in RANKS plus two. */
  const RANK_VALUE: map<char, int> :=
    map['2' := 2, '3' := 3, '4' := 4, '5' := 5, '6' := 6, '7' := 7, '8' := 8,
        '9' := 9, 'T' := 10, 'J' := 11, 'Q' := 12, 'K' := 13, 'A' := 14]

  datatype CardError = InvalidCardToken(card: Card)

  /** Position of the first occurrence of `c` in `s` (a tuple's `index`). */
  function IndexOf(s: seq<char>, c: char): (i: nat)
    requires c in s
    ensures i < |s| && s[i] == c && c !in s[..i]
  {
    if s[0] == c then 0 else 1 + IndexOf(s[1..], c)
  }

  lemma AlphabetsDistinct()
    ensures Distinct(RANKS) && Distinct(SUITS)
  {
  }

  /** In an alphabet without repeats, the index of the k-th letter is k. */
  lemma IndexOfDistinct(s: seq<char>, k: nat)
    requires Distinct(s) && k < |s|
    ensures IndexOf(s, s[k]) == k
  {
  }

  /** The rank table enumerates RANKS from 2 upwards, so it is strictly increasing along RANKS. */
  lemma RankValueMatchesRanks()
    ensures RANK_VALUE.Keys == ToSet(RANKS)
    ensures forall i :: 0 <= i < |RANKS| ==> RANKS[i] in RANK_VALUE && RANK_VALUE[RANKS[i]] == i + 2
    ensures forall i, j :: 0 <= i < j < |RANKS| ==> RANK_VALUE[RANKS[i]] < RANK_VALUE[RANKS[j]]
  {
    forall i | 0 <= i < |RANKS| ensures RANKS[i] in RANK_VALUE && RANK_VALUE[RANKS[i]] == i + 2 {
      if i < 4 {
      } else if i < 8 {
      } else {
      }
    }
  }

  /** Two ranks with the same value are the same rank. */
  lemma RankValueInjective(r1: char, r2: char)
    requires r1 in RANKS && r2 in RANKS
    ensures RANK_VALUE[r1] == RANK_VALUE[r2] <==> r1 == r2
  {
    RankValueMatchesRanks();
    var i1, i2 := IndexOf(RANKS, r1), IndexOf(RANKS, r2);
    assert RANK_VALUE[r1] == i1 + 2 && RANK_VALUE[r2] == i2 + 2;
  }

  /** Two-character tokens are equal exactly when both characters are. */
  lemma TokenEquality(a: Card, b: Card)
    requires |a| == 2 && |b| == 2
    ensures a == b <==> a[0] == b[0] && a[1] == b[1]
  {
    assert a == [a[0], a[1]] && b == [b[0], b[1]];
  }

  /** A token is valid when it has length two, a known rank first and a known suit second. */
  predicate IsValidCard(card: Card)
  {
    |card| == 2 && card[0] in RANKS && card[1] in SUITS
  }

  /** Splits a valid token into its rank and suit; an invalid token is an error. */
  function ParseCard(card: Card): (r: Result<(char, char), CardError>)
    ensures r.Ok? <==> IsValidCard(card)
    ensures r.Err? ==> r.error == InvalidCardToken(card)
    ensures r.Ok? ==> r.value.0 in RANKS && r.value.1 in SUITS && [r.value.0, r.value.1] == card
  {
    if !IsValidCard(card) then Err(InvalidCardToken(card))
    else Ok((card[0], card[1]))
  }

  /**
   * The canonical 52-card deck, rank-major: 2S, 2H, 2D, 2C, 3S, ..., AC.
   * Entry i is the nested comprehension's (i / 4)-th rank with its (i % 4)-th suit.
   */
  function StandardDeck(): seq<Card>
  {
    seq(|RANKS| * |SUITS|, i requires 0 <= i < |RANKS| * |SUITS| => [RANKS[i / |SUITS|], SUITS[i % |SUITS|]])
  }

  /** Entry i of the canonical deck is rank RANKS[i / 4] with suit SUITS[i % 4]. */
  lemma StandardDeckRankMajor()
    ensures |StandardDeck()| == 52
    ensures forall i :: 0 <= i < 52 ==> StandardDeck()[i] == [RANKS[i / 4], SUITS[i % 4]]
    ensures StandardDeck()[0] == "2S" && StandardDeck()[51] == "AC"
  {
  }

  /** The canonical deck holds 52 valid, pairwise distinct cards. */
  lemma StandardDeckValidAndDistinct()
    ensures |StandardDeck()| == 52
    ensures forall c :: c in StandardDeck() ==> IsValidCard(c)
    ensures Distinct(StandardDeck())
  {
    StandardDeckRankMajor();
    AlphabetsDistinct();
    var d := StandardDeck();
    forall i, j | 0 <= i < j < 52 ensures d[i] != d[j] {
      if i / 4 == j / 4 {
        assert i % 4 != j % 4;
        assert d[i][1] != d[j][1];
      } else {
        assert d[i][0] != d[j][0];
      }
    }
  }

  /** The valid tokens are exactly the cards of the canonical deck. */
  lemma ValidIffInDeck(card: Card)
    ensures IsValidCard(card) <==> card in StandardDeck()
  {
    StandardDeckRankMajor();
    var d := StandardDeck();
    if IsValidCard(card) {
      var a, b := IndexOf(RANKS, card[0]), IndexOf(SUITS, card[1]);
      var i := 4 * a + b;
      DivMod4(a, b);
      assert d[i] == [RANKS[a], SUITS[b]];
      assert card == [card[0], card[1]];
    }
    if card in d {
      var i :| 0 <= i < 52 && d[i] == card;
      assert card == [RANKS[i / 4], SUITS[i % 4]];
    }
  }

  lemma DivMod4(a: nat, b: nat)
    requires b < 4
    ensures (4 * a + b) / 4 == a && (4 * a + b) % 4 == b
  {
  }

  /** Sort key of a valid card: (rank value, suit position); an invalid token is an error. */
  function CardSortKey(card: Card): (r: Result<(int, int), CardError>)
    ensures r.Ok? <==> IsValidCard(card)
    ensures r.Ok? ==> 2 <= r.value.0 <= 14 && 0 <= r.value.1 < 4
  {
    match ParseCard(card)
    case Err(e) => Err(e)
    case Ok((rank, suit)) =>
      RankValueMatchesRanks();
      assert RANKS[IndexOf(RANKS, rank)] == rank;
      Ok((RANK_VALUE[rank], IndexOf(SUITS, suit)))
  }

  /** Lexicographic order on sort keys. */
  predicate KeyLess(a: (int, int), b: (int, int))
  {
    a.0 < b.0 || (a.0 == b.0 && a.1 < b.1)
  }

  /** Distinct valid cards have distinct sort keys. */
  lemma SortKeyInjective(a: Card, b: Card)
    requires IsValidCard(a) && IsValidCard(b)
    ensures CardSortKey(a) == CardSortKey(b) <==> a == b
  {
    if CardSortKey(a) == CardSortKey(b) {
      RankValueInjective(a[0], b[0]);
      assert a[1] == SUITS[IndexOf(SUITS, a[1])];
      assert a == [a[0], a[1]] && b == [b[0], b[1]];
    }
  }

  /** The sort key of the i-th canonical card is (i / 4 + 2, i % 4). */
  lemma StandardDeckKeyAt(i: nat)
    requires i < 52
    ensures |StandardDeck()| == 52 && CardSortKey(StandardDeck()[i]) == Ok((i / 4 + 2, i % 4))
  {
    StandardDeckRankMajor();
    var r, s := i / 4, i % 4;
    var c := StandardDeck()[i];
    assert c[0] == RANKS[r] && c[1] == SUITS[s];
    assert ParseCard(c) == Ok((RANKS[r], SUITS[s]));
    RankValueAt(r);
    AlphabetsDistinct();
    IndexOfDistinct(SUITS, s);
  }

  lemma RankValueAt(k: nat)
    requires k < |RANKS|
    ensures RANKS[k] in RANK_VALUE && RANK_VALUE[RANKS[k]] == k + 2
  {
    RankValueMatchesRanks();
  }

  /** The canonical deck order is ascending sort-key order. */
  lemma StandardDeckSortedByKey()
    ensures forall i, j :: 0 <= i < j < |StandardDeck()| ==>
      CardSortKey(StandardDeck()[i]).Ok? && CardSortKey(StandardDeck()[j]).Ok? &&
      KeyLess(CardSortKey(StandardDeck()[i]).value, CardSortKey(StandardDeck()[j]).value)
  {
    StandardDeckRankMajor();
    forall i, j | 0 <= i < j < 52
      ensures CardSortKey(StandardDeck()[i]).Ok? && CardSortKey(StandardDeck()[j]).Ok?
      ensures KeyLess(CardSortKey(StandardDeck()[i]).value, CardSortKey(StandardDeck()[j]).value)
    {
      StandardDeckKeyAt(i);
      StandardDeckKeyAt(j);
    }
  }
}
