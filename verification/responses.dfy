/** HTTP outcomes of the controllers, with the status plumbing stripped:
    a 200 with a body, a 404 with none, or a 204 with none. */
module Responses {

  datatype Response<+T> = Ok(body: T) | NotFound | NoContent

  /** A request that may change a record store: the store afterwards, and
      the response sent back. */
  datatype Handled<S, T> = Handled(store: S, response: Response<T>)
}
