/**
 * Scoring policy: categories are mapped to points in two universes. The
 * gameplay table covers every category and pays the jackpot for a straight
 * flush; the model table covers only the model categories, and a jackpot
 * category is first folded into a model category.
 */
module Scoring {
  import opened Wrappers
  import opened Seqs
  import opened Cards
  import opened Evaluator

  /** Gameplay-only award for a jackpot category. */
  const JACKPOT_POINTS: int := 999_999

  const GAMEPLAY_POINTS: map<Category, int> := map[
    HighCard := 50,
    OnePair := 70,
    TwoPair := 150,
    ThreeOfAKind := 250,
    Straight := 300,
    Flush := 360,
    FullHouse := 440,
    FourOfAKind := 730,
    StraightFlush := JACKPOT_POINTS
  ]

  /** The model table has no entry for the jackpot category. */
  const MODEL_POINTS: map<Category, int> := map[
    HighCard := 50,
    OnePair := 70,
    TwoPair := 150,
    ThreeOfAKind := 250,
    Straight := 300,
    Flush := 360,
    FullHouse := 440,
    FourOfAKind := 730
  ]

  datatype ScoringError =
    | Evaluation(cause: EvalError)
    | UnknownGameplayCategory(category: Category)
    | UnknownModelCategory(category: Category, raw: Category)

  /** Why the table self-check rejects the tables, in the order the checks run. */
  datatype TableError = GameplayCoverage | ModelCoverage | HighCardNotPositive

  // ---------------------------------------------------------------------------
  // Table lookups
  // ---------------------------------------------------------------------------

  /**
   * Gameplay points of a category. Every category has an entry, high card
   * pays something, and only the straight flush pays the jackpot.
   */
  function PointsForCategoryGameplay(category: Category): (r: Result<int, ScoringError>)
    ensures r.Ok?
    ensures r.value > 0
    ensures r.value == JACKPOT_POINTS <==> category == StraightFlush
  {
    TableKeys();
    InAllCategories(category);
    if category !in GAMEPLAY_POINTS then Err(UnknownGameplayCategory(category))
    else Ok(GAMEPLAY_POINTS[category])
  }

  /**
   * Model points of a category, raw or already normalized: the category is
   * folded into the model universe first, and the model table then agrees
   * with the gameplay table on the folded category.
   */
  function PointsForCategoryModel(category: Category): (r: Result<int, ScoringError>)
    ensures r.Ok?
    ensures r.value == PointsForCategoryGameplay(NormalizeModelCategory(category)).value
    ensures r.value < JACKPOT_POINTS
  {
    var cat := NormalizeModelCategory(category);
    if cat !in MODEL_POINTS then Err(UnknownModelCategory(cat, category))
    else Ok(MODEL_POINTS[cat])
  }

  /** Along ALL_CATEGORIES, from HIGH_CARD up to STRAIGHT_FLUSH, gameplay points strictly increase. */
  lemma GameplayPointsIncreasing()
    ensures forall i, j :: 0 <= i < j < |ALL_CATEGORIES| ==>
      PointsForCategoryGameplay(ALL_CATEGORIES[i]).value < PointsForCategoryGameplay(ALL_CATEGORIES[j]).value
  {
    var all := ALL_CATEGORIES;
    var pts := seq(9, k requires 0 <= k < 9 => GAMEPLAY_POINTS[all[k]]);
    assert pts == [50, 70, 150, 250, 300, 360, 440, 730, JACKPOT_POINTS];
    forall i, j | 0 <= i < j < 9
      ensures PointsForCategoryGameplay(all[i]).value < PointsForCategoryGameplay(all[j]).value
    {
      assert PointsForCategoryGameplay(all[i]).value == pts[i];
      assert PointsForCategoryGameplay(all[j]).value == pts[j];
    }
  }

  /** The model universe collapses the jackpot: a straight flush is worth a flush. */
  lemma JackpotCollapsesInModel()
    ensures PointsForCategoryGameplay(StraightFlush) == Ok(JACKPOT_POINTS)
    ensures PointsForCategoryModel(StraightFlush) == PointsForCategoryModel(Flush)
    ensures PointsForCategoryModel(StraightFlush).value < PointsForCategoryGameplay(StraightFlush).value
  {
  }

  /** Model points accept either the raw category or its normalized form. */
  lemma ModelPointsNormalizeInvariant(category: Category)
    ensures PointsForCategoryModel(category) == PointsForCategoryModel(NormalizeModelCategory(category))
  {
  }

  /** Outside the jackpot category the two tables agree. */
  lemma TablesAgreeOutsideJackpot(category: Category)
    requires !IsJackpotCategory(category)
    ensures PointsForCategoryModel(category) == PointsForCategoryGameplay(category)
  {
  }

  // ---------------------------------------------------------------------------
  // Table self-check
  // ---------------------------------------------------------------------------

  /** Every category is listed in ALL_CATEGORIES. */
  lemma InAllCategories(c: Category)
    ensures c in ALL_CATEGORIES
  {
    var a := ALL_CATEGORIES;
    match c
    case HighCard => assert a[0] == c;
    case OnePair => assert a[1] == c;
    case TwoPair => assert a[2] == c;
    case ThreeOfAKind => assert a[3] == c;
    case Straight => assert a[4] == c;
    case Flush => assert a[5] == c;
    case FullHouse => assert a[6] == c;
    case FourOfAKind => assert a[7] == c;
    case StraightFlush => assert a[8] == c;
  }

  /** The gameplay table covers exactly ALL_CATEGORIES and the model table exactly MODEL_CATEGORIES. */
  lemma TableKeys()
    ensures GAMEPLAY_POINTS.Keys == ToSet(ALL_CATEGORIES)
    ensures MODEL_POINTS.Keys == ToSet(MODEL_CATEGORIES)
  {
    forall c ensures c in GAMEPLAY_POINTS.Keys <==> c in ToSet(ALL_CATEGORIES) {
      InAllCategories(c);
    }
    forall c ensures c in MODEL_POINTS.Keys <==> c in ToSet(MODEL_CATEGORIES) {
      InModelCategories(c);
    }
  }

  /**
   * The development-time consistency check of the tables: coverage of the
   * two universes, then a positive HIGH_CARD award. The shipped tables pass.
   */
  function ValidateScoringTables(): (r: Outcome<TableError>)
    ensures r == Pass
  {
    TableKeys();
    if GAMEPLAY_POINTS.Keys != ToSet(ALL_CATEGORIES) then Fail(GameplayCoverage)
    else if MODEL_POINTS.Keys != ToSet(MODEL_CATEGORIES) then Fail(ModelCoverage)
    else if GAMEPLAY_POINTS[HighCard] <= 0 then Fail(HighCardNotPositive)
    else Pass
  }

  // ---------------------------------------------------------------------------
  // Scoring five cards
  // ---------------------------------------------------------------------------

  /**
   * Gameplay score of five cards: the raw category and its gameplay points.
   * Evaluation errors are passed on unchanged.
   */
  function Score5CardHandGameplay(cards: seq<Card>): (r: Result<(Category, int), ScoringError>)
    ensures r.Ok? <==> Evaluate5CardCategory(cards).Ok?
    ensures Evaluate5CardCategory(cards).Err? ==> r == Err(Evaluation(Evaluate5CardCategory(cards).error))
    ensures r.Ok? ==> r.value.0 == Evaluate5CardCategory(cards).value
    ensures r.Ok? ==> r.value.1 > 0 && (r.value.1 == JACKPOT_POINTS <==> r.value.0 == StraightFlush)
    ensures r.Ok? ==> r.value.1 == PointsForCategoryGameplay(r.value.0).value
  {
    match Evaluate5CardCategory(cards)
    case Err(e) => Err(Evaluation(e))
    case Ok(category) =>
      match PointsForCategoryGameplay(category)
      case Err(e) => Err(e)
      case Ok(points) => Ok((category, points))
  }

  /**
   * Model score of five cards: the category folded into the model universe
   * and the model points of the raw category, which are the points of the
   * returned category.
   */
  function Score5CardHandModel(cards: seq<Card>): (r: Result<(Category, int), ScoringError>)
    ensures r.Ok? <==> Evaluate5CardCategory(cards).Ok?
    ensures Evaluate5CardCategory(cards).Err? ==> r == Err(Evaluation(Evaluate5CardCategory(cards).error))
    ensures r.Ok? ==> r.value.0 in MODEL_CATEGORIES
    ensures r.Ok? ==> r.value.0 == NormalizeModelCategory(Evaluate5CardCategory(cards).value)
    ensures r.Ok? ==> r.value.1 == PointsForCategoryModel(r.value.0).value
  {
    match Evaluate5CardCategory(cards)
    case Err(e) => Err(Evaluation(e))
    case Ok(raw) =>
      var category := NormalizeModelCategory(raw);
      match PointsForCategoryModel(raw)
      case Err(e) => Err(e)
      case Ok(points) => Ok((category, points))
  }

  /**
   * The two scores of the same hand: both succeed or both fail with the same
   * error; they coincide except on a straight flush, which the model scores
   * as a flush.
   */
  lemma ModelScoreVersusGameplay(cards: seq<Card>)
    ensures Score5CardHandModel(cards).Ok? <==> Score5CardHandGameplay(cards).Ok?
    ensures Score5CardHandModel(cards).Err? ==> Score5CardHandModel(cards) == Score5CardHandGameplay(cards)
    ensures Score5CardHandGameplay(cards).Ok? && Score5CardHandGameplay(cards).value.0 != StraightFlush ==>
      Score5CardHandModel(cards) == Score5CardHandGameplay(cards)
    ensures Score5CardHandGameplay(cards).Ok? && Score5CardHandGameplay(cards).value.0 == StraightFlush ==>
      Score5CardHandGameplay(cards).value.1 == JACKPOT_POINTS &&
      Score5CardHandModel(cards) == Ok((Flush, MODEL_POINTS[Flush]))
  {
    var e := Evaluate5CardCategory(cards);
    if e.Ok? {
      InModelCategories(e.value);
    }
  }

  /** Both scores ignore the order of the cards. */
  lemma ScoreOrderInvariant(p: seq<Card>, c: seq<Card>)
    requires multiset(p) == multiset(c)
    ensures Score5CardHandGameplay(p) == Score5CardHandGameplay(c)
    ensures Score5CardHandModel(p) == Score5CardHandModel(c)
  {
    EvaluateOrderInvariant(p, c);
  }
}
