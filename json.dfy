/** The JSON-shaped values that the worker returns, the result store keeps
    and the HTTP handlers return: Python `dict`s with string keys and the
    scalar values that appear in them. */
module Json {
  import opened Outcomes

  datatype Value =
    | Null
    | Bool(b: bool)
    | Int(i: int)
    | Real(r: real)
    | Str(s: string)
    | List(items: seq<Value>)
    | Dict(fields: map<string, Value>)

  /** Python's `d.get(key)` on a value that is a dict: `None` when the key is absent. */
  function Get(v: Value, key: string): (r: Option<Value>)
    requires v.Dict?
    ensures r.Some? <==> key in v.fields
    ensures r.Some? ==> r.value == v.fields[key]
  {
    if key in v.fields then Some(v.fields[key]) else None
  }

  /** `isinstance(v, dict) and v.get("status") == "failed"`: the shape of a
      failure payload that both the worker and the poller recognise. */
  predicate IsFailedPayload(v: Value) {
    v.Dict? && Get(v, "status") == Some(Str("failed"))
  }

  /** `{"status": "failed", "error": error}` */
  function ErrorDict(error: string): (r: Value)
    ensures IsFailedPayload(r)
    ensures r.fields.Keys == {"status", "error"} && r.fields["error"] == Str(error)
  {
    Dict(map["status" := Str("failed"), "error" := Str(error)])
  }
}
