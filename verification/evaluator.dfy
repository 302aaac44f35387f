/**
 * The 5-card hand classifier: exactly five distinct valid cards are sorted
 * into one of nine categories, highest first, with no kicker or tie-break.
 * Also the split between the gameplay category universe and the "model"
 * universe, in which the jackpot category is folded into FLUSH.
 */
module Evaluator {
  import opened Wrappers
  import opened Seqs
  import opened Cards

  datatype Category =
    | HighCard
    | OnePair
    | TwoPair
    | ThreeOfAKind
    | Straight
    | Flush
    | FullHouse
    | FourOfAKind
    | StraightFlush

  const ALL_CATEGORIES: seq<Category> :=
    [HighCard, OnePair, TwoPair, ThreeOfAKind, Straight, Flush, FullHouse, FourOfAKind, StraightFlush]

  /** Categories that score in gameplay but are kept out of the model universe. */
  const JACKPOT_CATEGORIES: seq<Category> := [StraightFlush]

  /**
   * The model universe: ALL_CATEGORIES without the jackpot categories, in the
   * same order (ModelCategoriesValue proves it is that filter).
   */
  const MODEL_CATEGORIES: seq<Category> :=
    [HighCard, OnePair, TwoPair, ThreeOfAKind, Straight, Flush, FullHouse, FourOfAKind]

  datatype EvalError = WrongCardCount(count: nat) | InvalidCard | DuplicateCards

  // ---------------------------------------------------------------------------
  // Derived per-card data
  // ---------------------------------------------------------------------------

  predicate AllValid(cards: seq<Card>)
  {
    forall i :: 0 <= i < |cards| ==> IsValidCard(cards[i])
  }

  /** Numeric rank (2..14) of a valid card. */
  function RankOf(card: Card): (v: int)
    requires IsValidCard(card)
    ensures 2 <= v <= 14
  {
    RankValueAt(IndexOf(RANKS, card[0]));
    RANK_VALUE[card[0]]
  }

  /** Suit character of a valid card. */
  function SuitOf(card: Card): (s: char)
    requires IsValidCard(card)
    ensures s in SUITS
  {
    card[1]
  }

  /** The numeric ranks of the cards, in card order. */
  function Ranks(cards: seq<Card>): (r: seq<int>)
    requires AllValid(cards)
    ensures |r| == |cards|
    ensures forall i :: 0 <= i < |r| ==> r[i] == RankOf(cards[i])
  {
    Map(RankOf, cards)
  }

  /** The suit characters of the cards, in card order. */
  function Suits(cards: seq<Card>): (r: seq<char>)
    requires AllValid(cards)
    ensures |r| == |cards|
    ensures forall i :: 0 <= i < |r| ==> r[i] == cards[i][1]
  {
    Map(SuitOf, cards)
  }

  // ---------------------------------------------------------------------------
  // Rank multiplicities, sorted in descending order
  // ---------------------------------------------------------------------------

  /** The smallest rank value (the deuce). */
  const LOWEST_RANK: int := 2

  /** How many rank values v with lo <= v <= 14 occur exactly k times in m. */
  function RanksWithCount(m: multiset<int>, k: nat, lo: int): nat
    decreases 15 - lo
  {
    if lo > 14 then 0
    else (if m[lo] == k then 1 else 0) + RanksWithCount(m, k, lo + 1)
  }

  function Repeat(x: nat, n: nat): (r: seq<nat>)
    ensures |r| == n && forall i :: 0 <= i < n ==> r[i] == x
  {
    seq(n, _ => x)
  }

  /**
   * The multiplicities of the ranks in m that occur between 1 and k times,
   * largest first: each multiplicity j appears once per rank having it.
   */
  function CountsFrom(m: multiset<int>, k: nat): seq<nat>
  {
    if k == 0 then [] else Repeat(k, RanksWithCount(m, k, LOWEST_RANK)) + CountsFrom(m, k - 1)
  }

  /** Every listed multiplicity is between 1 and k, and they never increase. */
  lemma {:induction false} CountsFromOrdered(m: multiset<int>, k: nat)
    ensures forall i :: 0 <= i < |CountsFrom(m, k)| ==> 1 <= CountsFrom(m, k)[i] <= k
    ensures forall i, j :: 0 <= i < j < |CountsFrom(m, k)| ==> CountsFrom(m, k)[i] >= CountsFrom(m, k)[j]
  {
    if k > 0 {
      CountsFromOrdered(m, k - 1);
      var head, rest := Repeat(k, RanksWithCount(m, k, LOWEST_RANK)), CountsFrom(m, k - 1);
      var r := head + rest;
      assert CountsFrom(m, k) == r;
      forall i | 0 <= i < |r| ensures 1 <= r[i] <= k {
        if i >= |head| {
          assert r[i] == rest[i - |head|];
        }
      }
      forall i, j | 0 <= i < j < |r| ensures r[i] >= r[j] {
        if j < |head| {
        } else if i < |head| {
          assert r[i] == head[i] == k;
          assert r[j] == rest[j - |head|] <= k - 1;
        } else {
          assert r[i] == rest[i - |head|] && r[j] == rest[j - |head|];
        }
      }
    }
  }

  /**
   * The rank counter's values sorted in descending order. It depends on the
   * ranks only through their multiset, so it does not see the card order.
   */
  function CountsSorted(ranks: seq<int>): (r: seq<nat>)
    ensures forall i, j :: 0 <= i < j < |r| ==> r[i] >= r[j]
    ensures forall i :: 0 <= i < |r| ==> r[i] >= 1
    ensures (forall x :: x in ranks ==> LOWEST_RANK <= x <= 14) ==>
      forall k: nat :: k >= 1 ==> multiset(r)[k] == |set v | v in ranks && multiset(ranks)[v] == k|
  {
    var m := multiset(ranks);
    CountsFromOrdered(m, |ranks|);
    CountsAreMultiplicities(ranks);
    CountsFrom(m, |ranks|)
  }

  /** Repeat(x, n) holds x exactly n times and nothing else. */
  lemma {:induction false} MultisetRepeat(x: nat, n: nat)
    ensures forall y: nat :: multiset(Repeat(x, n))[y] == if y == x then n else 0
  {
    if n > 0 {
      MultisetRepeat(x, n - 1);
      assert Repeat(x, n) == Repeat(x, n - 1) + [x];
    }
  }

  /** Each multiplicity k in 1..K occurs once per rank value having it. */
  lemma {:induction false} CountsFromMultiset(m: multiset<int>, K: nat)
    ensures forall k: nat ::
      multiset(CountsFrom(m, K))[k] == (if 1 <= k <= K then RanksWithCount(m, k, LOWEST_RANK) else 0)
  {
    if K > 0 {
      var head, rest := Repeat(K, RanksWithCount(m, K, LOWEST_RANK)), CountsFrom(m, K - 1);
      CountsFromMultiset(m, K - 1);
      MultisetRepeat(K, RanksWithCount(m, K, LOWEST_RANK));
      assert CountsFrom(m, K) == head + rest;
      assert multiset(head + rest) == multiset(head) + multiset(rest);
    }
  }

  /** RanksWithCount counts the rank values from lo up to 14 of multiplicity k. */
  lemma {:induction false} RanksWithCountIsSetSize(m: multiset<int>, k: nat, lo: int)
    ensures RanksWithCount(m, k, lo) == |set v | lo <= v <= 14 && m[v] == k|
    decreases 15 - lo
  {
    var all := set v | lo <= v <= 14 && m[v] == k;
    if lo > 14 {
      assert all == {};
    } else {
      RanksWithCountIsSetSize(m, k, lo + 1);
      var above := set v | lo + 1 <= v <= 14 && m[v] == k;
      if m[lo] == k {
        assert all == above + {lo};
        assert lo !in above;
      } else {
        assert all == above;
      }
    }
  }

  /**
   * For ranks in 2..14, multiplicity k appears in the counts exactly as
   * often as there are distinct ranks occurring k times.
   */
  lemma CountsAreMultiplicities(ranks: seq<int>)
    ensures (forall x :: x in ranks ==> LOWEST_RANK <= x <= 14) ==>
      forall k: nat :: k >= 1 ==>
        multiset(CountsFrom(multiset(ranks), |ranks|))[k] == |set v | v in ranks && multiset(ranks)[v] == k|
  {
    if !(forall x :: x in ranks ==> LOWEST_RANK <= x <= 14) {
      return;
    }
    var m := multiset(ranks);
    CountsFromMultiset(m, |ranks|);
    MassOfRanks(ranks, LOWEST_RANK);
    forall k: nat | k >= 1
      ensures multiset(CountsFrom(m, |ranks|))[k] == |set v | v in ranks && m[v] == k|
    {
      RanksWithCountIsSetSize(m, k, LOWEST_RANK);
      var inRanks := set v | v in ranks && m[v] == k;
      var inRange := set v | LOWEST_RANK <= v <= 14 && m[v] == k;
      forall v | v in inRange ensures v in inRanks {
        assert v in m;
      }
      assert inRanks == inRange;
      if k > |ranks| {
        assert forall v :: v in inRange ==> m[v] <= |ranks|;
        assert inRange == {};
      }
    }
  }

  /** The total of a list of counts. */
  function Sum(s: seq<nat>): nat
  {
    if s == [] then 0 else s[0] + Sum(s[1..])
  }

  lemma {:induction false} SumAppend(a: seq<nat>, b: seq<nat>)
    ensures Sum(a + b) == Sum(a) + Sum(b)
  {
    if a == [] {
      assert a + b == b;
    } else {
      assert (a + b)[0] == a[0];
      assert (a + b)[1..] == a[1..] + b;
      SumAppend(a[1..], b);
    }
  }

  lemma {:induction false} SumRepeat(x: nat, n: nat)
    ensures Sum(Repeat(x, n)) == x * n
  {
    if n > 0 {
      assert Repeat(x, n)[1..] == Repeat(x, n - 1);
      SumRepeat(x, n - 1);
    }
  }

  lemma SumRepeatThen(x: nat, n: nat, rest: seq<nat>)
    ensures Sum(Repeat(x, n) + rest) == x * n + Sum(rest)
  {
    SumAppend(Repeat(x, n), rest);
    SumRepeat(x, n);
  }

  /** How many elements of m lie between lo and 14. */
  function Mass(m: multiset<int>, lo: int): nat
    decreases 15 - lo
  {
    if lo > 14 then 0 else m[lo] + Mass(m, lo + 1)
  }

  /** The total of the multiplicities 1..k of the rank values from lo up. */
  function Weighted(m: multiset<int>, k: nat, lo: int): nat
  {
    if k == 0 then 0 else k * RanksWithCount(m, k, lo) + Weighted(m, k - 1, lo)
  }

  lemma {:induction false} CountsFromSum(m: multiset<int>, k: nat)
    ensures Sum(CountsFrom(m, k)) == Weighted(m, k, LOWEST_RANK)
  {
    if k > 0 {
      SumRepeatThen(k, RanksWithCount(m, k, LOWEST_RANK), CountsFrom(m, k - 1));
      CountsFromSum(m, k - 1);
    }
  }

  /** Peeling off the lowest rank value: it contributes its multiplicity when that is at most k. */
  lemma {:induction false} WeightedStep(m: multiset<int>, k: nat, lo: int)
    requires lo <= 14
    ensures Weighted(m, k, lo) == (if m[lo] <= k then m[lo] else 0) + Weighted(m, k, lo + 1)
  {
    if k > 0 {
      WeightedStep(m, k - 1, lo);
      var here, above := (if m[lo] == k then 1 else 0), RanksWithCount(m, k, lo + 1);
      assert RanksWithCount(m, k, lo) == here + above;
      assert k * (here + above) == k * here + k * above;
    }
  }

  lemma {:induction false} WeightedIsMass(m: multiset<int>, k: nat, lo: int)
    requires forall v :: lo <= v <= 14 ==> m[v] <= k
    ensures Weighted(m, k, lo) == Mass(m, lo)
    decreases 15 - lo
  {
    if lo > 14 {
      WeightedAbove(m, k, lo);
    } else {
      WeightedStep(m, k, lo);
      WeightedIsMass(m, k, lo + 1);
    }
  }

  lemma {:induction false} WeightedAbove(m: multiset<int>, k: nat, lo: int)
    requires lo > 14
    ensures Weighted(m, k, lo) == 0
  {
    if k > 0 {
      WeightedAbove(m, k - 1, lo);
    }
  }

  lemma {:induction false} MassAdd(m: multiset<int>, x: int, lo: int)
    requires x <= 14
    ensures Mass(m + multiset{x}, lo) == Mass(m, lo) + (if lo <= x then 1 else 0)
    decreases 15 - lo
  {
    if lo <= 14 {
      MassAdd(m, x, lo + 1);
    }
  }

  lemma {:induction false} MassOfRanks(s: seq<int>, lo: int)
    requires forall x :: x in s ==> lo <= x <= 14
    ensures Mass(multiset(s), lo) == |s|
    ensures forall v :: multiset(s)[v] <= |s|
  {
    if s == [] {
      MassEmpty(lo);
    } else {
      var init, x := s[..|s| - 1], s[|s| - 1];
      assert s == init + [x];
      assert x in s;
      assert forall y :: y in init ==> y in s;
      assert multiset(s) == multiset(init) + multiset{x};
      MassOfRanks(init, lo);
      MassAdd(multiset(init), x, lo);
    }
  }

  lemma {:induction false} MassEmpty(lo: int)
    ensures Mass(multiset{}, lo) == 0
    decreases 15 - lo
  {
    if lo <= 14 {
      MassEmpty(lo + 1);
    }
  }

  /** The rank counts of cards with ranks in 2..14 add up to the number of cards. */
  lemma CountsSumToCards(ranks: seq<int>)
    requires forall x :: x in ranks ==> LOWEST_RANK <= x <= 14
    ensures Sum(CountsSorted(ranks)) == |ranks|
  {
    var m := multiset(ranks);
    MassOfRanks(ranks, LOWEST_RANK);
    CountsFromSum(m, |ranks|);
    WeightedIsMass(m, |ranks|, LOWEST_RANK);
  }

  // ---------------------------------------------------------------------------
  // Straight detection
  // ---------------------------------------------------------------------------

  const WHEEL: set<int> := {2, 3, 4, 5, 14}

  /**
   * Five distinct rank values that are consecutive, or the wheel A-2-3-4-5.
   * The sorted unique values equal [2, 3, 4, 5, 14] exactly when the set is
   * WHEEL, and their last and first entries are the maximum and minimum.
   */
  function IsStraight5(ranks: seq<int>): bool
  {
    var unique := ToSet(ranks);
    if |unique| != 5 then false
    else if unique == WHEEL then true
    else
      ToSetSize(ranks);
      SeqMax(ranks) - SeqMin(ranks) == 4
  }

  /** The five consecutive values starting at lo. */
  function Run(lo: int): set<int>
  {
    {lo, lo + 1, lo + 2, lo + 3, lo + 4}
  }

  /** A straight in poker terms: five consecutive ranks, or the ace-low wheel. */
  ghost predicate IsRun(values: set<int>)
  {
    (exists lo :: 2 <= lo <= 10 && values == Run(lo)) || values == WHEEL
  }

  lemma RunSize(lo: int)
    ensures |Run(lo)| == 5
  {
  }

  /** A passing straight test means a run or the wheel. */
  lemma StraightIsRun(ranks: seq<int>)
    requires forall x :: x in ranks ==> 2 <= x <= 14
    requires IsStraight5(ranks)
    ensures IsRun(ToSet(ranks))
  {
    var u := ToSet(ranks);
    if u != WHEEL {
      var mx, mn := SeqMax(ranks), SeqMin(ranks);
      assert u <= Run(mn);
      RunSize(mn);
      SubsetSameSize(u, Run(mn));
    }
  }

  /** The extremes of a sequence whose set is Run(lo) are lo and lo + 4. */
  lemma RunExtremes(ranks: seq<int>, lo: int)
    requires ToSet(ranks) == Run(lo)
    ensures |ranks| > 0 && SeqMax(ranks) == lo + 4 && SeqMin(ranks) == lo
  {
    assert lo in Run(lo) && lo + 4 in Run(lo);
    assert lo in ranks && lo + 4 in ranks;
    forall x | x in ranks ensures lo <= x <= lo + 4 {
      assert x in Run(lo);
    }
    BoundedExtremes(ranks, lo, lo + 4);
  }

  /** A sequence that contains lo and hi and lies between them has them as its extremes. */
  lemma BoundedExtremes(s: seq<int>, lo: int, hi: int)
    requires lo in s && hi in s
    requires forall x :: x in s ==> lo <= x <= hi
    ensures |s| > 0 && SeqMax(s) == hi && SeqMin(s) == lo
  {
  }

  /** A run, or the wheel, passes the straight test. */
  lemma RunIsStraight(ranks: seq<int>)
    requires IsRun(ToSet(ranks))
    ensures IsStraight5(ranks)
  {
    var u := ToSet(ranks);
    if u != WHEEL {
      var lo :| 2 <= lo <= 10 && u == Run(lo);
      RunSize(lo);
      RunExtremes(ranks, lo);
    }
  }

  /**
   * On rank values in 2..14, the straight test holds exactly when the
   * values are five consecutive ranks or the wheel.
   */
  lemma StraightIffRun(ranks: seq<int>)
    requires forall x :: x in ranks ==> 2 <= x <= 14
    ensures IsStraight5(ranks) <==> IsRun(ToSet(ranks))
  {
    if IsStraight5(ranks) {
      StraightIsRun(ranks);
    }
    if IsRun(ToSet(ranks)) {
      RunIsStraight(ranks);
    }
  }

  /** A straight has five different ranks. */
  lemma StraightHasDistinctRanks(ranks: seq<int>)
    requires |ranks| == 5 && IsStraight5(ranks)
    ensures Distinct(ranks)
  {
    DistinctIffSetSize(ranks);
  }

  // ---------------------------------------------------------------------------
  // Classification
  // ---------------------------------------------------------------------------

  /**
   * The precedence chain, highest category first, applied to the sorted rank
   * counts and the flush and straight tests.
   */
  function CategoryOf(countsSorted: seq<nat>, isFlush: bool, isStraight: bool): Category
  {
    if isStraight && isFlush then StraightFlush
    else if countsSorted == [4, 1] then FourOfAKind
    else if countsSorted == [3, 2] then FullHouse
    else if isFlush then Flush
    else if isStraight then Straight
    else if countsSorted == [3, 1, 1] then ThreeOfAKind
    else if countsSorted == [2, 2, 1] then TwoPair
    else if countsSorted == [2, 1, 1, 1] then OnePair
    else HighCard
  }

  /** The category of five valid cards. */
  function Classify(cards: seq<Card>): Category
    requires |cards| == 5 && AllValid(cards)
  {
    var ranks := Ranks(cards);
    CategoryOf(CountsSorted(ranks), |ToSet(Suits(cards))| == 1, IsStraight5(ranks))
  }

  /**
   * Classifies exactly five cards. The input is checked in order: the count
   * must be five, every token must be valid, and no card may repeat.
   */
  function Evaluate5CardCategory(cards: seq<Card>): (r: Result<Category, EvalError>)
    ensures r == Err(WrongCardCount(|cards|)) <==> |cards| != 5
    ensures r == Err(InvalidCard) <==> |cards| == 5 && exists c :: c in cards && !IsValidCard(c)
    ensures r == Err(DuplicateCards) <==> |cards| == 5 && AllValid(cards) && !Distinct(cards)
    ensures r.Ok? <==> |cards| == 5 && AllValid(cards) && Distinct(cards)
    ensures r.Ok? ==> r.value == Classify(cards)
  {
    DistinctIffSetSize(cards);
    if |cards| != 5 then Err(WrongCardCount(|cards|))
    else if !AllValid(cards) then Err(InvalidCard)
    else if |ToSet(cards)| != 5 then Err(DuplicateCards)
    else Ok(Classify(cards))
  }

  // ---------------------------------------------------------------------------
  // What the categories mean
  // ---------------------------------------------------------------------------

  /** All cards share the first card's suit. */
  predicate SameSuit(cards: seq<Card>)
    requires AllValid(cards) && |cards| > 0
  {
    forall i :: 0 <= i < |cards| ==> cards[i][1] == cards[0][1]
  }

  /** The ranks of the cards are five consecutive values or the wheel. */
  ghost predicate IsStraightHand(cards: seq<Card>)
    requires AllValid(cards)
  {
    IsRun(ToSet(Ranks(cards)))
  }

  /** The flush test (one distinct suit) means all cards share a suit. */
  lemma FlushIffSameSuit(cards: seq<Card>)
    requires AllValid(cards) && |cards| > 0
    ensures |ToSet(Suits(cards))| == 1 <==> SameSuit(cards)
  {
    SingletonSetIffConstant(Suits(cards));
  }

  /** Distinct cards of one suit have distinct ranks. */
  lemma SameSuitDistinctRanks(cards: seq<Card>)
    requires AllValid(cards) && |cards| > 0 && Distinct(cards) && SameSuit(cards)
    ensures Distinct(Ranks(cards))
  {
    var ranks := Ranks(cards);
    forall i, j | 0 <= i < j < |ranks| ensures ranks[i] != ranks[j] {
      var a, b := cards[i], cards[j];
      assert IsValidCard(a) && IsValidCard(b) && a != b && a[1] == b[1];
      TokenEquality(a, b);
      RankValueInjective(a[0], b[0]);
    }
  }

  lemma {:induction false} CountUnchangedBelow(m: multiset<int>, x: int, k: nat, lo: int)
    requires x < lo
    ensures RanksWithCount(m + multiset{x}, k, lo) == RanksWithCount(m, k, lo)
    decreases 15 - lo
  {
    if lo <= 14 {
      CountUnchangedBelow(m, x, k, lo + 1);
    }
  }

  /** Adding one occurrence of a rank that was absent adds one rank of count 1 and no other. */
  lemma {:induction false} CountAddFresh(m: multiset<int>, x: int, k: nat, lo: int)
    requires k >= 1 && m[x] == 0 && lo <= x <= 14
    ensures RanksWithCount(m + multiset{x}, k, lo) == RanksWithCount(m, k, lo) + (if k == 1 then 1 else 0)
    decreases 15 - lo
  {
    if lo == x {
      CountUnchangedBelow(m, x, k, lo + 1);
    } else {
      CountAddFresh(m, x, k, lo + 1);
    }
  }

  lemma {:induction false} CountEmpty(k: nat, lo: int)
    requires k >= 1
    ensures RanksWithCount(multiset{}, k, lo) == 0
    decreases 15 - lo
  {
    if lo <= 14 {
      CountEmpty(k, lo + 1);
    }
  }

  /** With no repeated rank, every rank present has count 1. */
  lemma {:induction false} DistinctRankCounts(s: seq<int>, k: nat, lo: int)
    requires Distinct(s) && k >= 1
    requires forall x :: x in s ==> lo <= x <= 14
    ensures RanksWithCount(multiset(s), k, lo) == (if k == 1 then |s| else 0)
  {
    if s == [] {
      CountEmpty(k, lo);
    } else {
      var t := s[1..];
      assert s == [s[0]] + t;
      DistinctTail(s);
      assert s[0] in s && forall x :: x in t ==> x in s;
      assert multiset(t)[s[0]] == 0;
      assert multiset(s) == multiset(t) + multiset{s[0]};
      DistinctRankCounts(t, k, lo);
      CountAddFresh(multiset(t), s[0], k, lo);
    }
  }

  /** Five different ranks give the sorted counts [1, 1, 1, 1, 1]. */
  lemma DistinctRanksCountsSorted(ranks: seq<int>)
    requires |ranks| == 5 && Distinct(ranks)
    requires forall x :: x in ranks ==> 2 <= x <= 14
    ensures CountsSorted(ranks) == [1, 1, 1, 1, 1]
  {
    var m := multiset(ranks);
    DistinctRankCounts(ranks, 1, LOWEST_RANK);
    DistinctRankCounts(ranks, 2, LOWEST_RANK);
    DistinctRankCounts(ranks, 3, LOWEST_RANK);
    DistinctRankCounts(ranks, 4, LOWEST_RANK);
    DistinctRankCounts(ranks, 5, LOWEST_RANK);
    assert CountsFrom(m, 1) == [1, 1, 1, 1, 1];
    assert CountsFrom(m, 2) == CountsFrom(m, 1);
    assert CountsFrom(m, 3) == CountsFrom(m, 2);
    assert CountsFrom(m, 4) == CountsFrom(m, 3);
    assert CountsFrom(m, 5) == CountsFrom(m, 4);
  }

  /**
   * On five distinct valid cards each category means what poker says it
   * means, and no category is shadowed by a lower one: a straight or a flush
   * always has five different ranks, so the rank-count categories only
   * apply to hands that are neither.
   */
  lemma ClassifyMatchesPokerRules(cards: seq<Card>)
    requires |cards| == 5 && AllValid(cards) && Distinct(cards)
    ensures
      var cat := Classify(cards);
      var counts := CountsSorted(Ranks(cards));
      var straight := IsStraightHand(cards);
      var flush := SameSuit(cards);
      && (cat == StraightFlush <==> straight && flush)
      && (cat == Flush <==> flush && !straight)
      && (cat == Straight <==> straight && !flush)
      && (cat == FourOfAKind <==> counts == [4, 1])
      && (cat == FullHouse <==> counts == [3, 2])
      && (cat == ThreeOfAKind <==> counts == [3, 1, 1])
      && (cat == TwoPair <==> counts == [2, 2, 1])
      && (cat == OnePair <==> counts == [2, 1, 1, 1])
      && (cat == HighCard <==>
            !straight && !flush &&
            counts != [4, 1] && counts != [3, 2] && counts != [3, 1, 1] &&
            counts != [2, 2, 1] && counts != [2, 1, 1, 1])
  {
    var ranks := Ranks(cards);
    assert forall x :: x in ranks ==> 2 <= x <= 14;
    StraightIffRun(ranks);
    FlushIffSameSuit(cards);
    if IsStraight5(ranks) {
      StraightHasDistinctRanks(ranks);
      DistinctRanksCountsSorted(ranks);
    }
    if SameSuit(cards) {
      SameSuitDistinctRanks(cards);
      DistinctRanksCountsSorted(ranks);
    }
  }

  /** Every five distinct cards of the deck are classified without error. */
  lemma EvaluateTotalOnDeckHands(cards: seq<Card>)
    requires |cards| == 5 && Distinct(cards)
    requires forall c :: c in cards ==> c in StandardDeck()
    ensures Evaluate5CardCategory(cards).Ok?
  {
    forall i | 0 <= i < |cards| ensures IsValidCard(cards[i]) {
      ValidIffInDeck(cards[i]);
    }
  }

  // ---------------------------------------------------------------------------
  // Order invariance
  // ---------------------------------------------------------------------------

  /** Reordering the cards reorders their ranks and suits the same way. */
  lemma RanksSuitsPermutation(p: seq<Card>, c: seq<Card>)
    requires AllValid(p) && multiset(p) == multiset(c)
    ensures AllValid(c)
    ensures multiset(Ranks(p)) == multiset(Ranks(c))
    ensures multiset(Suits(p)) == multiset(Suits(c))
  {
    MapPermutation(RankOf, p, c);
    MapPermutation(SuitOf, p, c);
  }

  /** The straight test looks only at the set of rank values. */
  lemma StraightDependsOnSet(a: seq<int>, b: seq<int>)
    requires ToSet(a) == ToSet(b)
    ensures IsStraight5(a) == IsStraight5(b)
  {
    assert forall x :: x in a <==> x in ToSet(a);
    assert forall x :: x in b <==> x in ToSet(b);
    if |ToSet(a)| == 5 && ToSet(a) != WHEEL {
      ToSetSize(a);
      ToSetSize(b);
      assert SeqMax(a) == SeqMax(b) && SeqMin(a) == SeqMin(b);
    }
  }

  /** The category of five valid cards does not depend on their order. */
  lemma ClassifyOrderInvariant(p: seq<Card>, c: seq<Card>)
    requires |p| == 5 && AllValid(p) && multiset(p) == multiset(c)
    ensures |c| == 5 && AllValid(c) && Classify(p) == Classify(c)
  {
    assert |c| == |multiset(c)| == 5;
    RanksSuitsPermutation(p, c);
    SameMultisetSameSet(Ranks(p), Ranks(c));
    SameMultisetSameSet(Suits(p), Suits(c));
    StraightDependsOnSet(Ranks(p), Ranks(c));
    assert CountsSorted(Ranks(p)) == CountsSorted(Ranks(c));
    assert |ToSet(Suits(p))| == |ToSet(Suits(c))|;
  }

  /** The category, or the error, does not depend on the order of the cards. */
  lemma EvaluateOrderInvariant(p: seq<Card>, c: seq<Card>)
    requires multiset(p) == multiset(c)
    ensures Evaluate5CardCategory(p) == Evaluate5CardCategory(c)
  {
    assert |p| == |multiset(p)| == |c|;
    assert forall x :: x in p <==> x in c by {
      forall x ensures x in p <==> x in c {
        assert x in p <==> x in multiset(p);
      }
    }
    assert AllValid(p) <==> AllValid(c) by {
      if AllValid(p) {
        forall i | 0 <= i < |c| ensures IsValidCard(c[i]) {
          assert c[i] in p;
        }
      }
      if AllValid(c) {
        forall i | 0 <= i < |p| ensures IsValidCard(p[i]) {
          assert p[i] in c;
        }
      }
    }
    assert ToSet(p) == ToSet(c);
    if |p| == 5 && AllValid(p) && |ToSet(p)| == 5 {
      ClassifyOrderInvariant(p, c);
    }
  }

  // ---------------------------------------------------------------------------
  // Jackpot / model categories
  // ---------------------------------------------------------------------------

  /** The categories of cs that are not jackpot categories, in their order in cs. */
  function WithoutJackpots(cs: seq<Category>): seq<Category>
  {
    if cs == [] then []
    else (if cs[0] in JACKPOT_CATEGORIES then [] else [cs[0]]) + WithoutJackpots(cs[1..])
  }

  /** The gameplay universe is the model universe followed by the jackpot categories. */
  lemma AllCategoriesSplit()
    ensures ALL_CATEGORIES == MODEL_CATEGORIES + JACKPOT_CATEGORIES
  {
  }

  /** The model universe is ALL_CATEGORIES with the jackpot categories filtered out. */
  lemma ModelCategoriesValue()
    ensures MODEL_CATEGORIES == WithoutJackpots(ALL_CATEGORIES)
  {
    AllCategoriesSplit();
    WithoutJackpotsAppend(MODEL_CATEGORIES, JACKPOT_CATEGORIES);
    WithoutJackpotsKeepsNonJackpots(MODEL_CATEGORIES);
  }

  /** Every category but STRAIGHT_FLUSH is a model category. */
  lemma InModelCategories(c: Category)
    ensures c in MODEL_CATEGORIES <==> c != StraightFlush
  {
    var m := MODEL_CATEGORIES;
    match c
    case HighCard => assert m[0] == c;
    case OnePair => assert m[1] == c;
    case TwoPair => assert m[2] == c;
    case ThreeOfAKind => assert m[3] == c;
    case Straight => assert m[4] == c;
    case Flush => assert m[5] == c;
    case FullHouse => assert m[6] == c;
    case FourOfAKind => assert m[7] == c;
    case StraightFlush =>
  }

  /** Filtering keeps exactly the non-jackpot members. */
  lemma {:induction false} WithoutJackpotsMembers(cs: seq<Category>)
    ensures forall c :: c in WithoutJackpots(cs) <==> c in cs && c !in JACKPOT_CATEGORIES
  {
    if cs != [] {
      WithoutJackpotsMembers(cs[1..]);
      assert cs == [cs[0]] + cs[1..];
    }
  }

  lemma {:induction false} WithoutJackpotsAppend(a: seq<Category>, b: seq<Category>)
    ensures WithoutJackpots(a + b) == WithoutJackpots(a) + WithoutJackpots(b)
  {
    if a != [] {
      assert (a + b)[1..] == a[1..] + b;
      WithoutJackpotsAppend(a[1..], b);
    } else {
      assert a + b == b;
    }
  }

  lemma {:induction false} WithoutJackpotsKeepsNonJackpots(cs: seq<Category>)
    requires StraightFlush !in cs
    ensures WithoutJackpots(cs) == cs
  {
    if cs != [] {
      WithoutJackpotsKeepsNonJackpots(cs[1..]);
    }
  }

  function IsJackpotCategory(c: Category): (b: bool)
    ensures b <==> c == StraightFlush
    ensures b <==> c !in MODEL_CATEGORIES
  {
    InModelCategories(c);

    c in JACKPOT_CATEGORIES
  }

  /**
   * Maps a gameplay category into the model universe: STRAIGHT_FLUSH becomes
   * FLUSH and every model category is left as it is.
   */
  function NormalizeModelCategory(c: Category): (r: Category)
    ensures r in MODEL_CATEGORIES
    ensures c in MODEL_CATEGORIES ==> r == c
    ensures IsJackpotCategory(c) ==> r == Flush
  {
    InModelCategories(c);
    InModelCategories(Flush);

    if c == StraightFlush then Flush else c
  }
}
