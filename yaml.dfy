/** A parsed YAML document as the tools see it: `nil`, a non-mapping value
    (kept as its text), or a mapping from string keys to values. */
module Yaml {
  import opened Wrappers

  datatype Value = Null | Scalar(text: string) | Mapping(fields: map<string, Value>)

  /** What reading one configuration file yields before `load_yaml` cleans it up. */
  datatype Document = Missing | Malformed | Parsed(value: Value)

  /** The value reached by following the keys of `path` (Ruby `dig`). */
  function At(v: Value, path: seq<string>): Option<Value>
    decreases |path|
  {
    if path == [] then Some(v)
    else if v.Mapping? && path[0] in v.fields then At(v.fields[path[0]], path[1..])
    else None
  }

  /** An overlay that leaves `path` alone: along the way it holds only
      mappings, and at the end nothing or `nil`. */
  predicate Leaves(v: Value, path: seq<string>)
    decreases |path|
  {
    match v
    case Null => true
    case Scalar(_) => false
    case Mapping(m) => path != [] && (path[0] !in m || Leaves(m[path[0]], path[1..]))
  }
}
