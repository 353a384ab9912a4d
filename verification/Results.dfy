/** The engine's result convention: every fallible call reports a code. */
module Results {

  /** NeverReturns is no code of the engine: it stands for a call that does not come back. */
  datatype DbError = InvalidArgument | NotFound | IoError | BadState | BufferFull | OutOfMemory | NeverReturns

  datatype Status = Ok | Error(code: DbError)

  datatype Option<T> = None | Some(value: T)
}
