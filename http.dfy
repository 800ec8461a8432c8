/** Request fields, error values and responses shared by both controllers. */
module Http {

  datatype Option<+T> = None | Some(value: T)

  /** A request-body field: None when the key is absent from the body (undefined). */
  type Field = Option<string>

  /** JavaScript truthiness of a string field, as in `if (!title)`: present and not empty. */
  predicate Filled(f: Field) {
    f.Some? && f.value != ""
  }

  /** What a handler passes to `next`.
      - Coded: `new HttpError(message, code)`;
      - Uncoded: `new HttpError(message)` with no status code;
      - Crashed: an exception (a TypeError on an undefined value, an I/O error, a rejected
        store write) forwarded as `new HttpError(error)`, or one that escapes the handler. */
  datatype HttpErr =
    | Coded(code: nat, message: string)
    | Uncoded(message: string)
    | Crashed

  /** A handler's reply: a status with a JSON body, or an error. */
  datatype Outcome<+T> = Ok(status: nat, body: T) | Err(error: HttpErr)
}
