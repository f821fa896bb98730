/** The JSON response envelope and the controller-advice mapping from an
    exception to an envelope. */
module Api {
  import opened Wrappers
  import opened Errors

  /** `ApiResponse<T>`: `message` and `data` are nullable in Java. */
  datatype ApiResponse<+T> = ApiResponse(success: bool, code: string, message: Option<string>, data: Option<T>)

  /** Java's `Void`: an envelope that never carries data. */
  type Void = ()

  /** `ApiResponse.success(data)`. */
  function Ok<T>(data: Option<T>): (r: ApiResponse<T>)
    ensures r.success && r.code == "0" && r.message == Some("success") && r.data == data
  {
    ApiResponse(true, Code(ErrorCode.Ok), Some(DefaultMessage(ErrorCode.Ok)), data)
  }

  /** `ApiResponse.success()`: the same envelope with no data. */
  function OkEmpty(): (r: ApiResponse<Void>)
    ensures r.success && r.code == "0" && r.message == Some("success") && r.data == None
  {
    Ok(None)
  }

  /** `ApiResponse.failure(errorCode)`: the code's own default message. */
  function FailWith(e: ErrorCode): (r: ApiResponse<Void>)
    ensures !r.success && r.code == Code(e) && r.message == Some(DefaultMessage(e)) && r.data == None
  {
    ApiResponse(false, Code(e), Some(DefaultMessage(e)), None)
  }

  /** `ApiResponse.failure(errorCode, message)`: the given message replaces
      the default one, even when it is null. */
  function FailWithMessage(e: ErrorCode, message: Option<string>): (r: ApiResponse<Void>)
    ensures !r.success && r.code == Code(e) && r.message == message && r.data == None
  {
    ApiResponse(false, Code(e), message, None)
  }

  /** `ApiResponse.failure(code, message)` with a raw code string. */
  function FailWithCode(code: string, message: Option<string>): (r: ApiResponse<Void>)
    ensures !r.success && r.code == code && r.message == message && r.data == None
  {
    ApiResponse(false, code, message, None)
  }

  /** `GlobalExceptionHandler`: business exceptions keep their own code and
      message, validation failures become 400 and anything else 500, always
      with the exception's own message. */
  function Handle(ex: Exception): (r: ApiResponse<Void>)
    ensures !r.success && r.data == None && r.message == ex.message
    ensures ex.Business? ==> r.code == Code(ex.code)
    ensures ex.Validation? ==> r.code == "400"
    ensures ex.Runtime? ==> r.code == "500"
  {
    match ex
    case Business(code, message) => FailWithMessage(code, message)
    case Validation(_, message) => FailWithMessage(BadRequest, message)
    case Runtime(_, message) => FailWithMessage(ServerError, message)
  }

  /** A ResourceNotFoundException always reaches the client as "404". */
  lemma NotFoundIs404(message: string)
    ensures Handle(NotFoundError(message)).code == "404"
    ensures Handle(NotFoundError(message)).message == Some(message)
  {
  }

  /** No exception ever produces a success envelope or the success code. */
  lemma HandledNeverSuccess(ex: Exception)
    ensures !Handle(ex).success
    ensures ex.Business? && ex.code != ErrorCode.Ok ==> Handle(ex).code != "0"
    ensures !ex.Business? ==> Handle(ex).code != "0"
  {
  }
}
