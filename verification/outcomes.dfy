/** Absence values and explicit failures of the query library.

    The library signals a failed lookup by returning an absence value
    (`Option.None`), and the places where `functions.js` would fault on
    absent data (an empty author list, a book id that resolves to nothing)
    become an explicit `Result.Err` carrying the reason. */
module Outcomes {

  /** A value that may be absent: the result of a lookup that can miss. */
  datatype Option<+T> = None | Some(value: T)

  /** Why an operation that needs data could not produce a result. */
  datatype Failure =
    | NoAuthors              // an argmax over an empty author list
    | BookNotFound(id: int)  // a book id that matches no book

  /** Either the computed value or the reason there is none. */
  datatype Result<+T> = Ok(value: T) | Err(error: Failure)
}
