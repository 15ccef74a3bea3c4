/** Optional values, the faults the theme parser can raise, and a failure-compatible result type. */
module Wrappers {

  /** A JavaScript value that may be `undefined` (or `null`). */
  datatype Option<+T> = None | Some(value: T)

  /** The TypeErrors the modelled code raises by reading a property of `undefined`. */
  datatype Fault =
    | UnknownColor(id: string)      // `getColor(id)` gave `undefined` and a field of it was read
    | MissingMarker(path: string)   // `path.split(marker)[1]` is `undefined` and `.split` was called on it

  /** Either a value or the fault that was thrown instead; usable with `:-`. */
  datatype Result<+T> = Ok(value: T) | Err(error: Fault) {
    predicate IsFailure() { Err? }

    function PropagateFailure<U>(): Result<U>
      requires Err?
    {
      Err(error)
    }

    function Extract(): T
      requires Ok?
    {
      value
    }
  }

  /** `Map.get`: the value stored under `k`, or `undefined`. */
  function Lookup<K, V>(m: map<K, V>, k: K): (r: Option<V>)
    ensures r.Some? <==> k in m
    ensures r.Some? ==> r.value == m[k]
  {
    if k in m then Some(m[k]) else None
  }
}
