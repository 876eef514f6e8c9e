/** Python-level values shared by the agents: optional results, the
    exceptions the agents can raise, what `json.loads` hands back, and a
    dictionary object that is updated in place. */
module PyBase {

  datatype Option<+T> = None | Some(value: T)

  /** A value, or the Python exception that was raised instead. */
  datatype Result<+T, +E> = Success(value: T) | Failure(error: E)

  /** The exceptions that escape the modelled functions. */
  datatype PyError =
    | RuntimeError(message: string)
    | JSONDecodeError(message: string)
    | KeyError(key: string)
    | TypeError

  /** A JSON value as seen from Python after `json.loads`. Strings are kept
      exactly; every other value is kept only through the text `str()` gives
      it, split into the hashable ones (numbers, booleans, null) and the
      unhashable ones (arrays, objects). */
  datatype Json =
    | JStr(s: string)
    | JAtom(text: string)
    | JCompound(text: string)

  /** Python's `str(v)` on a decoded JSON value. */
  function Str(v: Json): string {
    match v
    case JStr(s) => s
    case JAtom(t) => t
    case JCompound(t) => t
  }

  /** The top-level result of a successful `json.loads`: a dict (JSON object)
      or anything else. */
  datatype Parsed = Object(fields: map<string, Json>) | NonObject

  /** `json.loads` as a black box: the decoded document, or `str(e)` of the
      exception it raised. */
  type JsonLoads = string -> Result<Parsed, string>

  /** A Python dict with string keys, mutated in place. */
  class PyDict<V> {
    var items: map<string, V>

    constructor (init: map<string, V>)
      ensures items == init
    {
      items := init;
    }

    /** `d[key] = value` */
    method SetItem(key: string, value: V)
      modifies this
      ensures items == old(items)[key := value]
    {
      items := items[key := value];
    }

    /** The dict after a step that may rebind any of its entries. */
    method Rebind(next: map<string, V>)
      modifies this
      ensures items == next
    {
      items := next;
    }
  }
}
