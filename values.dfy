/**
 * Runtime values, validation contexts and validation results: the data every
 * descriptor reads and produces.
 */
module Values {

  datatype Option<T> = None | Some(value: T)

  /**
   * An untrusted runtime value as a decoder sees it. JavaScript numbers are
   * modelled by integers; objects and arrays are not needed by the core.
   */
  datatype Value =
    | Null
    | Undefined
    | Bool(b: bool)
    | Num(n: int)
    | Str(s: string)

  /**
   * One step on the path from the validation root to the value being checked:
   * the key under which it was reached, the name of the descriptor checking it
   * and the value itself.
   */
  datatype ContextEntry = ContextEntry(key: string, typeName: string, actual: Value)

  /** The path from the root, oldest entry first; it only ever grows at the end. */
  type Context = seq<ContextEntry>

  /** A single reason for rejecting `value` at `context`, with an optional custom message. */
  datatype ValidationError = ValidationError(value: Value, context: Context, message: Option<string>)

  /** The outcome of a validation: the validated value, or the errors found. */
  datatype Validation = Success(value: Value) | Failure(errors: seq<ValidationError>)

  /** The one-entry context a top-level decode seeds: key "", the decoder's name, the input. */
  function Root(name: string, input: Value): Context {
    [ContextEntry("", name, input)]
  }

  /** The failure io-ts reports for a rejected value: exactly one error at the current context. */
  function Rejected(u: Value, c: Context): Validation {
    Failure([ValidationError(u, c, None)])
  }

  /** The decimal rendering of a member index, used as a context key. */
  function IndexKey(k: nat): string
    decreases k
  {
    if k < 10 then ["0123456789"[k]] else IndexKey(k / 10) + ["0123456789"[k % 10]]
  }
}
