/** Identifiers, optional values, results and the API's error kinds, shared by every module. */
module Common {

  /** Document identifiers. The store hands them out from one counter, so a larger
      identifier means a later creation time. */
  type Id = nat

  datatype Option<T> = None | Some(value: T)

  datatype Result<T> = Ok(value: T) | Err(error: Error)

  /** The failures a handler answers with, each carrying what its message reports. */
  datatype Error =
    | NotFound                                                // the addressed document does not exist
    | BookNotFound(book: Id)                                  // an order line names a missing book
    | InsufficientStock(title: string, available: int, requested: int)
    | AuthorNotFound                                          // a book names a missing author
    | AuthorHasBooks(count: nat)                              // author deletion blocked by its books
    | ValidationFailed                                        // a schema validator rejected a field
    | DuplicateIsbn                                           // the unique ISBN index rejected a write
    | StatusRequired                                          // status update without a status
    | InvalidStock                                            // stock update without a usable value
    | NotDeletable                                            // order deletion outside pending/cancelled
    | BadPaging                                               // the database refused the page window

  /** The HTTP status the handlers answer each failure with. */
  function HttpStatus(e: Error): int
  {
    match e
    case NotFound => 404
    case BadPaging => 500
    case _ => 400
  }
}
