/** Optional values, the error kinds the catalog reports, and a result type
    usable with `:-`. Python raises exceptions; the model returns `Err`. */
module Outcomes {

  datatype Option<+T> = None | Some(value: T)

  /** One constructor per kind of failure the core can raise. */
  datatype Error =
    | NotFound(isbn: string)          // KeyError: no book with this ISBN
    | Conflict(isbn: string)          // ValueError: a book with this ISBN already exists
    | EmptyHistory                    // ValueError: no states available to undo
    | Unsupported(format: string)     // ValueError: unsupported format, naming the input as given
    | Malformed                       // the format strategy could not decode the text
    | MissingKey(key: string)         // KeyError: a payload lacks a key
    | BadValue(key: string)           // the value under a payload key has the wrong kind
    | Required(field: string)         // ValidationError: a required field is absent
    | TooShort(field: string, minLength: int)  // ValidationError: text shorter than min_length
    | TooSmall(field: string, ge: int)         // ValidationError: integer below ge

  datatype Result<+T> = Ok(value: T) | Err(error: Error) {
    predicate IsFailure() { Err? }

    function PropagateFailure<U>(): Result<U>
      requires Err?
    {
      Err(error)
    }

    function Extract(): T
      requires Ok?
    {
      value
    }
  }
}
