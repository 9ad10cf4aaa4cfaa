/** Option and the HTTP-status-shaped error result used by every handler of the model. */
module Wrappers {

  datatype Option<+T> = None | Some(value: T)

  /** The three statuses the modelled handlers answer with besides success. */
  datatype Status = NotFound | BadRequest | InternalServerError

  /** A handler's answer: a value, or the status it fails with. */
  datatype Result<+T> = Ok(value: T) | Err(status: Status)
}
