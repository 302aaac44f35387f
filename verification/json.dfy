/**
 * The JSON-shaped values the engine exchanges with its callers: parsed
 * action requests, the public view of the state and the transition events.
 */
module Json {
  datatype JsonValue =
    | JNull
    | JBool(b: bool)
    | JInt(i: int)
    | JFloat(f: real)
    | JStr(s: string)
    | JArray(items: seq<JsonValue>)
    | JObject(fields: map<string, JsonValue>)

  /** A list of integers as a JSON array. */
  function IntArray(xs: seq<int>): (j: JsonValue)
    ensures j.JArray? && |j.items| == |xs|
    ensures forall i :: 0 <= i < |xs| ==> j.items[i] == JInt(xs[i])
  {
    JArray(seq(|xs|, i requires 0 <= i < |xs| => JInt(xs[i])))
  }

  /** A list of strings as a JSON array. */
  function StrArray(xs: seq<string>): (j: JsonValue)
    ensures j.JArray? && |j.items| == |xs|
    ensures forall i :: 0 <= i < |xs| ==> j.items[i] == JStr(xs[i])
  {
    JArray(seq(|xs|, i requires 0 <= i < |xs| => JStr(xs[i])))
  }
}
