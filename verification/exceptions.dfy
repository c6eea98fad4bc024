/** The three business exceptions the service throws, as plain values. */
module Exceptions {

  /** What a failed lookup was looking for: a name or a primary key. */
  datatype Lookup = ByNome(nome: string) | ById(id: int)

  datatype Error =
    | AlreadyRegistered(nome: string)
    | NotFound(key: Lookup)
    | StockExceeded(id: int, quantity: int)

  /** A service reply: the returned value, or the exception thrown instead. */
  datatype Result<+T> = Ok(value: T) | Err(error: Error)
}
