/** The JSON responses the API routes answer with: a status code and either
    an error body or a success body. */
module Http {
  import opened Wrappers

  /** The status `json(...)` uses when none is given. */
  const Ok200: nat := 200
  const BadRequest400: nat := 400
  const ServerError500: nat := 500

  /** A response body: `{error}` or `{error, details}`, or a success body
      carrying `success: true` and the route's fields. */
  datatype Body<T> = Failure(error: string, details: Option<string>) | Success(data: T)

  datatype Reply<T> = Reply(status: nat, body: Body<T>)

  /** `json({error}, {status})`. */
  function Refuse<T>(status: nat, error: string): Reply<T>
  {
    Reply(status, Failure(error, None))
  }

  /** `json({error, details: error.message}, {status: 500})`: the catch
      branch of a handler. */
  function Crash<T>(error: string, message: string): Reply<T>
  {
    Reply(ServerError500, Failure(error, Some(message)))
  }

  /** `json({success: true, ...})`. */
  function Answer<T>(data: T): Reply<T>
  {
    Reply(Ok200, Success(data))
  }
}
