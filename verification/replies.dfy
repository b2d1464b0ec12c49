/**
 What the transport hands back for one command: raw text, or the nested
 structure a structured parser produced. Also the faults (Python exceptions)
 that end a device task early.
 */
module Replies {
  import opened Wrappers

  /** The command both device families are asked first. */
  const StatusCommand := "show vtp status"

  /** `None`, a string, or a dictionary keyed by strings. */
  datatype Value = Null | Str(text: string) | Dict(entries: map<string, Value>)

  datatype Fault =
    | NotText               // `re.search` given something other than a string (TypeError)
    | NotSubscriptable      // `value[key]` on a string or on None (TypeError)
    | MissingKey(key: string) // `value[key]` on a dictionary without `key` (KeyError)
    | NoFeatureMatch        // `.group` on the None of a failed feature search (AttributeError)

  /** Python's `value[key]`. */
  function Lookup(v: Value, key: string): (r: Result<Value, Fault>)
    ensures r.Success? <==> v.Dict? && key in v.entries
    ensures r.Success? ==> r.value == v.entries[key]
    ensures r.Failure? && v.Dict? ==> r.error == MissingKey(key)
    ensures r.Failure? && !v.Dict? ==> r.error == NotSubscriptable
  {
    match v
    case Dict(m) => if key in m then Success(m[key]) else Failure(MissingKey(key))
    case _ => Failure(NotSubscriptable)
  }

  /** Reference lookup along a key path: defined exactly when every step is. */
  function Get(v: Value, path: seq<string>): Option<Value>
    decreases |path|
  {
    if path == [] then Some(v)
    else if v.Dict? && path[0] in v.entries then Get(v.entries[path[0]], path[1..])
    else None
  }
}
