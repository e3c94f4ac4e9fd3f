/**
  The parsed JSON values the client handles. `NSJSONSerialization` itself is
  not modelled: its serialiser and parser enter the model as function
  parameters over these values.
 */
module Json {
  import opened Wrappers

  datatype Json =
    | Null
    | Bool(b: bool)
    | Number(n: real)
    | Str(s: string)
    | Array(items: seq<Json>)
    | Object(members: map<string, Json>)

  /** A JSON object, Swift's `[String:AnyObject]`. */
  type JsonObject = map<string, Json>

  /** `value as? [String:AnyObject]`: succeeds exactly on objects. */
  function AsObject(j: Json): (r: Option<JsonObject>)
    ensures r.Some? <==> j.Object?
    ensures r.Some? ==> j == Object(r.value)
  {
    if j.Object? then Some(j.members) else None
  }

  /**
    `value as? [[String:AnyObject]]`: succeeds exactly on arrays whose every
    element is an object, and then lists those objects in order.
   */
  function AsObjectArray(j: Json): (r: Option<seq<JsonObject>>)
    ensures r.Some? <==> j.Array? && forall i :: 0 <= i < |j.items| ==> j.items[i].Object?
    ensures r.Some? ==> |r.value| == |j.items|
    ensures r.Some? ==> forall i :: 0 <= i < |j.items| ==> j.items[i] == Object(r.value[i])
  {
    if j.Array? && forall i :: 0 <= i < |j.items| ==> j.items[i].Object? then
      Some(seq(|j.items|, i requires 0 <= i < |j.items| => j.items[i].members))
    else None
  }

  /** `dict?[key]` of an optional object. */
  function Lookup(obj: Option<JsonObject>, key: string): (r: Option<Json>)
    ensures r.Some? <==> obj.Some? && key in obj.value
    ensures r.Some? ==> r.value == obj.value[key]
  {
    if obj.Some? && key in obj.value then Some(obj.value[key]) else None
  }
}
