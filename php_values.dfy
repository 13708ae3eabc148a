/**
 * The PHP values that cross the runtime's boundary: decoded events,
 * handler results, the value a handler file returns, and PHP's rule for
 * when such a value counts as true.
 */
module PhpValues {
  import opened Wrappers
  import opened PhpStrings

  /** A key of a PHP array. */
  datatype Key = IntKey(i: int) | StrKey(s: Bytes)

  /**
   * A PHP value. An array is an ordered list of key/value entries; an
   * object (a closure included) is known only by its class name.
   */
  datatype Value =
    | Null
    | Bool(b: bool)
    | Int(i: int)
    | Str(s: Bytes)
    | Array(entries: seq<(Key, Value)>)
    | Object(className: Bytes)

  /** A thrown error as the runtime sees it: `get_class($e)` and `$e->getMessage()`. */
  datatype Throwable = Throwable(className: Bytes, message: Bytes)

  /** PHP's conversion of a string to bool: only "" and "0" are false. */
  predicate StringTruthy(s: Bytes) {
    s != "" && s != "0"
  }

  /** PHP's conversion of a value to bool, as `!` and `?:` apply it. */
  predicate Truthy(v: Value) {
    match v
    case Null => false
    case Bool(b) => b
    case Int(i) => i != 0
    case Str(s) => StringTruthy(s)
    case Array(entries) => entries != []
    case Object(_) => true
  }

  /** `$array[$key]` on an array's entries, `None` for a missing key. */
  function Lookup(entries: seq<(Key, Value)>, key: Key): (r: Option<Value>)
    ensures r.None? <==> forall i :: 0 <= i < |entries| ==> entries[i].0 != key
    ensures r.Some? ==> exists i :: 0 <= i < |entries| && entries[i] == (key, r.value)
  {
    if entries == [] then None
    else if entries[0].0 == key then Some(entries[0].1)
    else Lookup(entries[1..], key)
  }
}
