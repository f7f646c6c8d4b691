/**
 The shared data model of the instance catalog (`instances.json`) as both
 scripts see it after JSON decoding: a catalog holds an `updated` stamp and a
 list of instance records, and each record is a JSON object whose values are
 the two scalar types the catalog schema uses, strings and booleans.
 */
module Instances {

  /** The conventional Some/None wrapper. */
  datatype Option<+T> = None | Some(value: T)

  /** A JSON scalar as it appears in an instance record. */
  datatype Value = Str(s: string) | Bool(b: bool)

  /** One instance: a JSON object, keys mapped to values (`url`, `onion`,
      `i2p`, `country`, `version`, `cloudflare`, `description`, ...). */
  type Record = map<string, Value>

  /** The decoded catalog document. */
  datatype Catalog = Catalog(updated: string, instances: seq<Record>)

  /** Python's `bool(v)`: a string is truthy when non-empty. */
  predicate Truthy(v: Value)
  {
    match v
    case Str(s) => s != []
    case Bool(b) => b
  }

  /** Python's `str(v)`, which is what `format` and `print` write. */
  function Text(v: Value): string
  {
    match v
    case Str(s) => s
    case Bool(b) => if b then "True" else "False"
  }

  /** Python's `s[i]` on a list: negative indices count from the end, and an
      index outside `-|s| <= i < |s|` raises `IndexError` (here `None`). */
  function PyIndex<T>(s: seq<T>, i: int): (r: Option<T>)
    ensures r.Some? <==> -|s| <= i < |s|
    ensures r.Some? ==> r.value in s
  {
    if 0 <= i < |s| then Some(s[i])
    else if -|s| <= i < 0 then Some(s[|s| + i])
    else None
  }
}
