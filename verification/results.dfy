/** Failure-carrying values used by the codec. */
module Results {

  /** A value that may be absent: Python's `str.index` either finds a
      position or raises. */
  datatype Option<+T> = None | Some(value: T)

  /** Why a token cannot be turned back into an identifier. */
  datatype TokenError =
    /** A character of the token is not in the alphabet (Python's
        `chars.index` raises `ValueError`). */
    | InvalidToken

  /** Either a computed value or the error that stopped the computation. */
  datatype Result<+T> = Ok(value: T) | Err(error: TokenError)
}
