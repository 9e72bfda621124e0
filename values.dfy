/** The values a loaded JSON document is made of, the Python operations on them that
    the data parser uses (`in`, truthiness), and the exceptions those operations raise. */
module Values {
  import opened Text

  /** A JSON value as Python's `json.loads` returns it (floats are not modelled). */
  datatype Value =
    | Null
    | Bool(b: bool)
    | Int(i: int)
    | Str(s: string)
    | Array(items: seq<Value>)
    | Object(fields: map<string, Value>)

  /** A spell record: a JSON object, from field name to value. */
  type Record = map<string, Value>

  /** Python truthiness, as `if classes:` tests it. */
  predicate Truthy(v: Value) {
    match v
    case Null => false
    case Bool(b) => b
    case Int(i) => i != 0
    case Str(s) => s != ""
    case Array(xs) => xs != []
    case Object(m) => m != map[]
  }

  /** `needle in hay` on two Python strings. */
  predicate IsSubstring(needle: string, hay: string) {
    exists i :: 0 <= i <= |hay| && StartsWith(hay[i..], needle)
  }

  datatype Option<T> = None | Some(value: T)

  /** Python's `key in container` for a string key: membership of the key in a
      dictionary, of an equal string in a list, of a substring in a string;
      `None` where Python raises `TypeError` (numbers, booleans, `None`). */
  function Contains(container: Value, key: string): (r: Option<bool>)
    ensures r.None? <==> !(container.Object? || container.Array? || container.Str?)
    ensures container.Object? ==> r == Some(key in container.fields)
  {
    if container.Object? then Some(key in container.fields)
    else if container.Array? then Some(Str(key) in container.items)
    else if container.Str? then Some(IsSubstring(key, container.s))
    else None
  }

  /** Why `validate_data` raised `InvalidDataError`. */
  datatype Reason =
    | TooFewEntries                            // fewer than three top-level entries
    | NoDataKey                                // no "data" key at index 2
    | MissingField(key: string, item: Value)   // `key` missing from record `item`

  /** The exceptions the three operations can raise. */
  datatype Failure =
    | InvalidData(reason: Reason)   // InvalidDataError, raised by validate_data
    | IndexError                    // `data[2]` on a document with fewer than three entries
    | KeyError(key: string)         // `data[2]['data']` on a mapping without that key
    | KeyErrorOnRemove              // `unique_classes.remove(c)` of an entry no longer in the set
    | TypeError                     // subscripting, iterating or `**`-merging a value of the wrong kind
    | AttributeError                // `.get` or `.split` on a value that has no such method
    | Unsupported                   // iterating the keys of an object, or the characters of a string, under "data"

  datatype Result<T> = Ok(value: T) | Err(error: Failure) {
    predicate IsFailure() { Err? }
    function PropagateFailure<U>(): Result<U> requires Err? { Err(error) }
    function Extract(): T requires Ok? { value }
  }

  /** The result of an operation that returns nothing or raises. */
  datatype Outcome = Pass | Fail(error: Failure)
}
