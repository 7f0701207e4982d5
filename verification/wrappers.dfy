/** Optional values (a JSON field that may be null or missing) and HTTP responses. */
module Wrappers {

  /** A value that may be absent: `null` or `undefined` in the JSON the routes exchange. */
  datatype Option<+T> = None | Some(value: T)

  /** What a route handler returns: a JSON body with a success code, or `{ error: message }`
      with an error code. */
  datatype Response<+T> = Ok(code: nat, body: T) | Error(code: nat, message: string)
}
