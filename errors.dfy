/** The error values the engine produces or passes on. */
module Errors {

  datatype Error =
    | NotFound                      // store.ErrNotFound: no ciphertext at the resolved path
    | Decrypt                       // store.ErrDecrypt: the crypto backend rejected the ciphertext
    | BackendNotFound               // backend.ErrNotFound: an unregistered backend id
    | NotSupported                  // backend.ErrNotSupported: the backend lacks the capability
    | PermanentParse(msg: string)   // secrets.PermanentError: malformed but recognisable MIME
    | TransientParse(msg: string)   // any other parser miss; the cascade moves on
    | MultipleValues(key: string)   // KV.Set on a key that holds several values
    | BackendFailure(msg: string)   // an opaque failure reported by a backend
    | Wrapped(context: string, cause: Error)  // fmt.Errorf("<context>: %w", cause)

  /** `errors.Is(e, cause)`: `cause` is `e` or sits somewhere in its `%w` chain. */
  predicate Wraps(e: Error, cause: Error)
  {
    e == cause || (e.Wrapped? && Wraps(e.cause, cause))
  }
}
