/**
 * Status codes, exceptions and decoded request bodies shared by the service
 * and the controller.
 */
module Http {

  const HTTP_OK: int := 200
  const HTTP_BAD_REQUEST: int := 400
  const HTTP_UNAUTHORIZED: int := 401

  /**
   * What a service call can throw. `HttpException` is the one the service
   * raises itself; `FrameworkException` stands for everything PHP, Symfony or
   * the database raise on its behalf (an unknown form child, an undefined
   * array key, a column constraint, a JSON syntax error). Both are
   * `\Exception`s, so every endpoint catches both.
   */
  datatype Exception =
    | HttpException(status: int, message: string)
    | FrameworkException(message: string)

  /** A service call either returns a value or throws. */
  datatype Outcome<+T> = Returned(value: T) | Threw(error: Exception)

  /** A request body after `json_decode`: a value, or the decoder's complaint. */
  datatype Decoded<+T> = Json(value: T) | Undecodable(reason: string)
}
