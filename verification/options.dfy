/** Optional values: `None` stands for a JavaScript `null` / `undefined` slot
    or for a position past the end of an array. */
module Options {

  datatype Option<+T> = None | Some(value: T) {

    /** The wrapped value, or `default` when there is none. */
    function GetOr(default: T): T {
      match this
      case Some(v) => v
      case None => default
    }
  }

  /** The element at position `j` of `s`, or `None` when `s` is too short:
      what a JavaScript `s.length > j ? s[j] : …` guard distinguishes. */
  function At<T>(s: seq<T>, j: nat): (r: Option<T>)
    ensures r.Some? <==> j < |s|
    ensures r.Some? ==> r.value == s[j]
  {
    if j < |s| then Some(s[j]) else None
  }
}
