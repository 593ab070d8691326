/** Failure-carrying results shared by the codec and the Caixa table. */
module Outcomes {

  datatype Option<T> = None | Some(value: T)

  /** The failures the application can run into. `ValueError` is what
      Python's `float` raises on malformed text; `NotFound` is the
      "Caixa não encontrado" branch; `DuplicateKey` is the storage engine
      refusing a second row with the same unique `caixa_aberto`. */
  datatype Error = ValueError | NotFound | DuplicateKey

  datatype Result<T> = Ok(value: T) | Err(error: Error)

  /** The outcome of an operation that returns nothing on success. */
  datatype Status = Done | Failed(error: Error)
}
