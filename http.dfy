/** Values the handlers exchange with Express: JSON replies and the
    security events `logSecurityEvent` (server.js:171-177) writes. The log
    line's timestamp, IP address and user agent are not modelled. */
module Http {

  datatype Option<T> = None | Some(value: T)

  /** `res.status(status).json({ success, message })`. */
  datatype Reply = Reply(status: nat, success: bool, message: string)

  /** The events and the details each one records. */
  datatype SecurityEvent =
    | UnauthorizedAccess(endpoint: string)
    | InvalidToken(endpoint: string, error: string)
    | FailedLogin(password: string)
    | MulterErrorLogged(code: string, message: string, endpoint: string)
    | BlockedFileUpload(error: string, endpoint: string)

  const Ok: nat := 200
  const BadRequest: nat := 400
  const Unauthorized: nat := 401
  const Forbidden: nat := 403
  const NotFound: nat := 404
  const ServerError: nat := 500

  /** `res.json({ success: true, message })`, whose status is 200. */
  function Success(message: string): Reply
  {
    Reply(Ok, true, message)
  }

  function Failure(status: nat, message: string): Reply
  {
    Reply(status, false, message)
  }
}
