/** Shared vocabulary of the model: optional values, the exceptions the
    Python code raises, and the identity of a peer node. */
module Prelude {

  /** Python's `None` or a value. */
  datatype Option<+T> = None | Some(value: T)

  /** The identity of a peer: its IMC address and its system name, the
      `(imc_address, sys_name)` tuple keying the node map. */
  datatype NodeKey = NodeKey(addr: int, name: string)

  /** The exceptions the modelled code raises or catches. `AmbiguousKeyError`
      carries every matching key, in node-map order. */
  datatype Exc =
    | KeyError
    | AmbiguousKeyError(choices: seq<NodeKey>)
    | TypeError
    | ValueError
    | IndexError
    | AttributeError
    | AssertionError
    | RuntimeError
      /** any other exception, e.g. one a user handler raises */
    | OtherError

  /** `AmbiguousKeyError` subclasses `KeyError`, so an `except KeyError`
      clause catches both. */
  predicate IsKeyError(e: Exc) {
    e.KeyError? || e.AmbiguousKeyError?
  }

  /** The outcome of a call that either returns a value or raises. */
  datatype Result<+T> = Ok(value: T) | Err(exc: Exc)

  function Max(a: real, b: real): real {
    if a >= b then a else b
  }
}
