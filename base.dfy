/** Result shapes shared by every part of the model. */
module Base {

  datatype Option<+T> = None | Some(value: T)

  /** What an HTTP route hands back to the framework: a JSON body, an error
      response with a status code and a `detail` message, or an uncaught Python
      exception, which the framework turns into a 500 response. */
  datatype Response<+T> = Ok(value: T) | Err(status: nat, detail: string) | Crash

  /** What a plain Python helper does: return a value, or raise an exception
      nobody catches (a KeyError or TypeError on a malformed document). */
  datatype Outcome<+T> = Normal(value: T) | Raised

  const BadRequest: nat := 400
  const Forbidden: nat := 403
}
