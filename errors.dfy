/**
 * The library's error taxonomy (src/errors.rs) and `GDResult<T>`, written as a
 * failure-compatible datatype so that `:-` plays the part of Rust's `?`.
 * Only the variants are modelled; their `Display` texts are formatting.
 */
module Errors {

  datatype GDError =
    | PacketOverflow(details: string)
    | PacketUnderflow(details: string)
    | PacketBad(details: string)
    | PacketSend(details: string)
    | PacketReceive(details: string)
    | Decompress(details: string)
    | UnknownEnumCast
    | BadGame(details: string)
    | SocketBind(details: string)
    | InvalidInput(details: string)
    | SocketConnect(details: string)
    | JsonParse(details: string)
    | AutoQuery
    | ProtocolFormat(details: string)
    | TypeParse(details: string)

  datatype GDResult<+T> = Ok(value: T) | Err(error: GDError) {

    predicate IsFailure() {
      Err?
    }

    function PropagateFailure<U>(): GDResult<U>
      requires Err?
    {
      Err(error)
    }

    function Extract(): T
      requires Ok?
    {
      value
    }
  }
}
