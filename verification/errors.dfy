/** The application's error vocabulary: the `ErrorCode` enumeration with its
    wire codes and default messages, and the exceptions a service call can
    end in. */
module Errors {
  import opened Wrappers

  datatype ErrorCode = Ok | BadRequest | Unauthorized | Forbidden | NotFound | TooManyRequests | ServerError

  /** The wire code carried in every response envelope. */
  function Code(e: ErrorCode): string {
    match e
    case Ok => "0"
    case BadRequest => "400"
    case Unauthorized => "401"
    case Forbidden => "403"
    case NotFound => "404"
    case TooManyRequests => "429"
    case ServerError => "500"
  }

  function DefaultMessage(e: ErrorCode): string {
    match e
    case Ok => "success"
    case BadRequest => "请求参数异常"
    case Unauthorized => "未认证或认证已过期"
    case Forbidden => "权限不足"
    case NotFound => "资源不存在"
    case TooManyRequests => "请求过于频繁"
    case ServerError => "服务器繁忙，请稍后再试"
  }

  /** Framework validation failures, each handled as a bad request. */
  datatype ValidationKind = MethodArgumentNotValid | Bind | ConstraintViolation | MessageNotReadable

  /** Java library failures that reach the generic handler. */
  datatype RuntimeKind =
    | NumberFormat            // Long.parseLong / Long.valueOf on a non-number
    | IndexOutOfBounds        // array access past the end
    | IllegalArgument         // e.g. PageRequest.of with a size below one
    | IncorrectResultSize     // an Optional-returning query matched several rows
    | DateTime                // LocalDate arithmetic beyond the supported range
    | StoreError              // an error reply from the key-value store

  /** An exception leaving a service call. `message` is Java's nullable
      `getMessage()`. */
  datatype Exception =
    | Business(code: ErrorCode, message: Option<string>)
    | Validation(validation: ValidationKind, message: Option<string>)
    | Runtime(failure: RuntimeKind, message: Option<string>)

  /** `new BusinessException(code, message)`. */
  function Fail(code: ErrorCode, message: string): Exception {
    Business(code, Some(message))
  }

  /** `new ResourceNotFoundException(message)`: a business exception whose
      code is always NOT_FOUND. */
  function NotFoundError(message: string): (e: Exception)
    ensures e.Business? && e.code == NotFound && e.message == Some(message)
  {
    Business(NotFound, Some(message))
  }

  /** A service call: either its value or the exception it throws. */
  type Outcome<T> = Result<T, Exception>

  /** Distinct codes are distinct on the wire. */
  lemma CodeInjective(a: ErrorCode, b: ErrorCode)
    requires Code(a) == Code(b)
    ensures a == b
  {
  }
}
