/**
 * The engine's input language: an action is a PLAY of exactly five hand
 * positions or a DISCARD of one up to min(hand size, discard budget)
 * positions. This module validates actions against the public state and
 * converts them to and from their JSON shape; it changes no state.
 */
module Actions {
  import opened Wrappers
  import opened Seqs
  import opened Json

  const PLAY: string := "PLAY"
  const DISCARD: string := "DISCARD"

  /**
   * An action as the engine receives it. The type tag is kept as the string
   * the caller sent, so an action built around the parser can carry an
   * unknown tag, which validation then rejects.
   */
  datatype Action = Action(kind: string, selectedIndices: seq<int>)

  /** Why an action is rejected, one constructor per rejection in the validator. */
  datatype ActionError =
    | BudgetsNegative
    | NoPlaysRemaining
    | PlayRequiresFive
    | NoDiscardsRemaining
    | DiscardRequiresAtLeastOne
    | DiscardBudgetExceeded
    | HandLenNegative
    | DuplicateIndices
    | IndexOutOfBounds(index: int)
    | UnknownActionType(kind: string)

  /** Why a JSON request is not an action, in the order the parser checks. */
  datatype ParseError =
    | NotAnObject
    | InvalidActionType
    | IndicesNotList
    | IndexNotInt(item: JsonValue)

  // ---------------------------------------------------------------------------
  // Index checks
  // ---------------------------------------------------------------------------

  /** Every index names a position of a hand of handLen cards, and none repeats. */
  predicate UniqueInBounds(indices: seq<int>, handLen: int)
  {
    && handLen >= 0
    && Distinct(indices)
    && forall k :: 0 <= k < |indices| ==> 0 <= indices[k] < handLen
  }

  /** The position of the first index outside [0, handLen), if any. */
  function FirstOutOfBounds(indices: seq<int>, handLen: int): (r: Option<nat>)
    ensures r.None? <==> forall k :: 0 <= k < |indices| ==> 0 <= indices[k] < handLen
    ensures r.Some? ==> r.value < |indices| && !(0 <= indices[r.value] < handLen)
    ensures r.Some? ==> forall k :: 0 <= k < r.value ==> 0 <= indices[k] < handLen
  {
    if indices == [] then None
    else if indices[0] < 0 || indices[0] >= handLen then Some(0)
    else match FirstOutOfBounds(indices[1..], handLen)
      case None => None
      case Some(k) => Some(k + 1)
  }

  /**
   * The uniqueness-and-range check: a negative hand length first, then a
   * repeated index (the set of indices is smaller than the list), then the
   * first index out of range. It passes exactly on UniqueInBounds.
   */
  function ValidateUniqueInBounds(indices: seq<int>, handLen: int): (r: Outcome<ActionError>)
    ensures r == Pass <==> UniqueInBounds(indices, handLen)
    ensures r == Fail(HandLenNegative) <==> handLen < 0
    ensures r == Fail(DuplicateIndices) <==> handLen >= 0 && !Distinct(indices)
    ensures r.Fail? && r.error.IndexOutOfBounds? ==>
      handLen >= 0 && Distinct(indices) && r.error.index in indices && !(0 <= r.error.index < handLen)
    ensures r.Fail? ==> r.error in {HandLenNegative, DuplicateIndices} || r.error.IndexOutOfBounds?
  {
    DistinctIffSetSize(indices);
    if handLen < 0 then Fail(HandLenNegative)
    else if |ToSet(indices)| != |indices| then Fail(DuplicateIndices)
    else match FirstOutOfBounds(indices, handLen)
      case Some(k) => Fail(IndexOutOfBounds(indices[k]))
      case None => Pass
  }

  // ---------------------------------------------------------------------------
  // Validation against the public state
  // ---------------------------------------------------------------------------

  function Min(a: int, b: int): int
  {
    if a <= b then a else b
  }

  /** What a valid action looks like, stated directly from the rules of the game. */
  predicate IsLegal(action: Action, handLen: int, pRemaining: int, dRemaining: int)
  {
    var n := |action.selectedIndices|;
    && pRemaining >= 0 && dRemaining >= 0
    && UniqueInBounds(action.selectedIndices, handLen)
    && (|| (action.kind == PLAY && pRemaining > 0 && n == 5)
        || (action.kind == DISCARD && dRemaining > 0 && 1 <= n <= Min(handLen, dRemaining)))
  }

  /**
   * Validates an action against the hand length and the two budgets. The
   * checks run in a fixed order and the first failing one is reported.
   */
  function ValidateAction(action: Action, handLen: int, pRemaining: int, dRemaining: int): (r: Outcome<ActionError>)
    ensures r == Pass <==> IsLegal(action, handLen, pRemaining, dRemaining)
    ensures pRemaining < 0 || dRemaining < 0 ==> r == Fail(BudgetsNegative)
    ensures pRemaining >= 0 && dRemaining >= 0 && action.kind != PLAY && action.kind != DISCARD ==>
      r == Fail(UnknownActionType(action.kind))
    ensures pRemaining == 0 && dRemaining >= 0 && action.kind == PLAY ==> r == Fail(NoPlaysRemaining)
    ensures pRemaining > 0 && dRemaining >= 0 && action.kind == PLAY && |action.selectedIndices| != 5 ==>
      r == Fail(PlayRequiresFive)
    ensures pRemaining >= 0 && dRemaining == 0 && action.kind == DISCARD ==> r == Fail(NoDiscardsRemaining)
    ensures pRemaining >= 0 && dRemaining > 0 && action.kind == DISCARD && |action.selectedIndices| == 0 ==>
      r == Fail(DiscardRequiresAtLeastOne)
    ensures (pRemaining >= 0 && dRemaining > 0 && action.kind == DISCARD && |action.selectedIndices| >= 1 &&
             |action.selectedIndices| > Min(handLen, dRemaining)) ==> r == Fail(DiscardBudgetExceeded)
    ensures (&& pRemaining >= 0 && dRemaining >= 0
             && (|| (action.kind == PLAY && pRemaining > 0 && |action.selectedIndices| == 5)
                 || (action.kind == DISCARD && dRemaining > 0 &&
                     1 <= |action.selectedIndices| <= Min(handLen, dRemaining)))) ==>
      r == ValidateUniqueInBounds(action.selectedIndices, handLen)
  {
    var n := |action.selectedIndices|;
    if pRemaining < 0 || dRemaining < 0 then Fail(BudgetsNegative)
    else if action.kind == PLAY then
      if pRemaining <= 0 then Fail(NoPlaysRemaining)
      else if n != 5 then Fail(PlayRequiresFive)
      else ValidateUniqueInBounds(action.selectedIndices, handLen)
    else if action.kind == DISCARD then
      if dRemaining <= 0 then Fail(NoDiscardsRemaining)
      else if n < 1 then Fail(DiscardRequiresAtLeastOne)
      else if n > Min(handLen, dRemaining) then Fail(DiscardBudgetExceeded)
      else ValidateUniqueInBounds(action.selectedIndices, handLen)
    else Fail(UnknownActionType(action.kind))
  }

  /** The positions 0, 1, ..., n - 1. */
  function Positions(n: nat): (r: seq<int>)
    ensures |r| == n && forall k :: 0 <= k < n ==> r[k] == k
  {
    seq(n, k => k)
  }

  /** n distinct positions of a hand of handLen cards need n <= handLen. */
  lemma DistinctPositionsFit(indices: seq<int>, handLen: int)
    requires UniqueInBounds(indices, handLen)
    ensures |indices| <= handLen
  {
    var positions := Positions(handLen);
    forall x | x in ToSet(indices) ensures x in ToSet(positions) {
      assert positions[x] == x;
    }
    SubsetSize(ToSet(indices), ToSet(positions));
    ToSetSize(positions);
    DistinctIffSetSize(indices);
  }

  /** A valid PLAY needs a hand of at least five cards; a valid DISCARD never exceeds the hand. */
  lemma LegalSelectionFitsHand(action: Action, handLen: int, pRemaining: int, dRemaining: int)
    requires ValidateAction(action, handLen, pRemaining, dRemaining) == Pass
    ensures action.kind == PLAY ==> handLen >= 5
    ensures 1 <= |action.selectedIndices| <= handLen
  {
    DistinctPositionsFit(action.selectedIndices, handLen);
  }

  // ---------------------------------------------------------------------------
  // JSON conversion
  // ---------------------------------------------------------------------------

  /** Accepts JSON integers only (booleans and floats are not indices). */
  function EnsureIntIndices(items: seq<JsonValue>): (r: Result<seq<int>, ParseError>)
    ensures r.Ok? <==> forall k :: 0 <= k < |items| ==> items[k].JInt?
    ensures r.Ok? ==> |r.value| == |items| && forall k :: 0 <= k < |items| ==> items[k] == JInt(r.value[k])
    ensures r.Err? ==>
      exists k :: 0 <= k < |items| && !items[k].JInt? && r.error == IndexNotInt(items[k]) &&
                  forall j :: 0 <= j < k ==> items[j].JInt?
  {
    if items == [] then Ok([])
    else if !items[0].JInt? then Err(IndexNotInt(items[0]))
    else match EnsureIntIndices(items[1..])
      case Err(e) =>
        ghost var k :| 0 <= k < |items[1..]| && !items[1..][k].JInt? && e == IndexNotInt(items[1..][k]) &&
          forall j :: 0 <= j < k ==> items[1..][j].JInt?;
        assert items[k + 1] == items[1..][k];
        Err(e)
      case Ok(rest) => Ok([items[0].i] + rest)
  }

  /** The request names a known action type. */
  predicate HasActionType(fields: map<string, JsonValue>)
  {
    "type" in fields && (fields["type"] == JStr(PLAY) || fields["type"] == JStr(DISCARD))
  }

  /** The request carries a list under "selected_indices". */
  predicate HasIndexList(fields: map<string, JsonValue>)
  {
    "selected_indices" in fields && fields["selected_indices"].JArray?
  }

  /**
   * Parses {"type": "PLAY" | "DISCARD", "selected_indices": [int, ...]}.
   * Other keys are ignored. A non-object, an unknown type, a missing or
   * non-list index field and a non-integer index are rejected in that order.
   */
  function ActionFromDict(obj: JsonValue): (r: Result<Action, ParseError>)
    ensures !obj.JObject? ==> r == Err(NotAnObject)
    ensures obj.JObject? && !HasActionType(obj.fields) ==> r == Err(InvalidActionType)
    ensures obj.JObject? && HasActionType(obj.fields) && !HasIndexList(obj.fields) ==> r == Err(IndicesNotList)
    ensures r.Ok? <==>
      && obj.JObject? && HasActionType(obj.fields) && HasIndexList(obj.fields)
      && forall k :: 0 <= k < |obj.fields["selected_indices"].items| ==> obj.fields["selected_indices"].items[k].JInt?
    ensures r.Ok? ==>
      && (r.value.kind == PLAY || r.value.kind == DISCARD)
      && obj.fields["type"] == JStr(r.value.kind)
      && |r.value.selectedIndices| == |obj.fields["selected_indices"].items|
      && forall k :: 0 <= k < |r.value.selectedIndices| ==>
           obj.fields["selected_indices"].items[k] == JInt(r.value.selectedIndices[k])
    ensures obj.JObject? && HasActionType(obj.fields) && HasIndexList(obj.fields) && r.Err? ==>
      var items := obj.fields["selected_indices"].items;
      exists k :: 0 <= k < |items| && !items[k].JInt? && r.error == IndexNotInt(items[k]) &&
                  forall j :: 0 <= j < k ==> items[j].JInt?
  {
    if !obj.JObject? then Err(NotAnObject)
    else
      var f := obj.fields;
      if !HasActionType(f) then Err(InvalidActionType)
      else if !HasIndexList(f) then Err(IndicesNotList)
      else match EnsureIntIndices(f["selected_indices"].items)
        case Err(e) => Err(e)
        case Ok(indices) => Ok(Action(f["type"].s, indices))
  }

  /** The JSON shape of an action. */
  function ActionToDict(action: Action): (j: JsonValue)
    ensures j.JObject? && j.fields.Keys == {"type", "selected_indices"}
    ensures j.fields["type"] == JStr(action.kind)
  {
    JObject(map["type" := JStr(action.kind), "selected_indices" := IntArray(action.selectedIndices)])
  }

  /** Serializing an action with a known type and parsing it back gives the same action. */
  lemma ActionRoundTrip(action: Action)
    requires action.kind == PLAY || action.kind == DISCARD
    ensures ActionFromDict(ActionToDict(action)) == Ok(action)
  {
    var items := ActionToDict(action).fields["selected_indices"].items;
    var r := EnsureIntIndices(items);
    assert r.Ok?;
    assert r.value == action.selectedIndices;
  }

  /**
   * Whatever a request parses to, serializing the result reproduces the
   * request's "type" and "selected_indices" entries.
   */
  lemma ParsedActionMatchesRequest(obj: JsonValue)
    requires ActionFromDict(obj).Ok?
    ensures obj.JObject?
    ensures forall key :: key in ActionToDict(ActionFromDict(obj).value).fields ==>
      key in obj.fields && obj.fields[key] == ActionToDict(ActionFromDict(obj).value).fields[key]
  {
    var a := ActionFromDict(obj).value;
    var items := obj.fields["selected_indices"].items;
    assert IntArray(a.selectedIndices).items == items;
  }
}
