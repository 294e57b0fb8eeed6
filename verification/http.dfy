/** Replies of the HTTP handlers: the error taxonomy of the server and the
    status code each error is answered with. */
module Http {

  /** Every error response the core handlers can send. */
  datatype ApiError =
    | UserIdRequired      // POST /register, GET /ads without a truthy userId
    | ClickFieldsRequired // POST /click without a truthy userId or adId
    | UserNotFound        // unknown user on /click and /user/:id
    | AdNotFound          // unknown ad on /click
    | AlreadyClicked      // cooldown still running on /click
    | NoAuthHeader        // admin route without an Authorization header
    | Forbidden           // admin route with the wrong token
    | AdFieldsRequired    // POST /admin/ad without title, url or reward
    | StoreError          // the database refused the statement

  /** A handler's answer: a value on success, an error otherwise. */
  datatype Result<+T> = Ok(value: T) | Err(error: ApiError)

  /** The HTTP status code sent with each error. */
  function Status(e: ApiError): (code: int)
    ensures 400 <= code < 600
    ensures code == 404 <==> e == UserNotFound || e == AdNotFound
    ensures code == 400 <==> e in {UserIdRequired, ClickFieldsRequired, AlreadyClicked, AdFieldsRequired}
    ensures code == 401 <==> e == NoAuthHeader
    ensures code == 403 <==> e == Forbidden
    ensures code == 500 <==> e == StoreError
  {
    match e
    case UserIdRequired => 400
    case ClickFieldsRequired => 400
    case UserNotFound => 404
    case AdNotFound => 404
    case AlreadyClicked => 400
    case NoAuthHeader => 401
    case Forbidden => 403
    case AdFieldsRequired => 400
    case StoreError => 500
  }
}
