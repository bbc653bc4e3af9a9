/** The error codes the server sends back, one constructor per constant of
    the error table, plus the decoding failure of the base64 library whose
    message the server forwards. */
module Errors {

  datatype Error =
    | InvalidAction
    | WrongSecret
    | UserNotFound
    | BlobNotFound
    | BlobNotInShare
    | NoWriteAccess
    | RemoteError
    | InvalidJson
    | QuotaExceeded
    | BlobHashNotMatch
    | ShareNotFound
    | InvalidCredentials
    | InvalidSession
    | RegistrationDisabled
    | Base64DecodeError

  /** The text each error travels as. */
  function Code(e: Error): string {
    match e
    case InvalidAction => "INVALID_ACTION"
    case WrongSecret => "WRONG_SECRET"
    case UserNotFound => "USER_NOT_FOUND"
    case BlobNotFound => "BLOB_NOT_FOUND"
    case BlobNotInShare => "BLOB_IS_NOT_IN_SHARE"
    case NoWriteAccess => "NO_WRITE_ACCESS"
    case RemoteError => "REMOTE_ERROR"
    case InvalidJson => "INVALID_JSON"
    case QuotaExceeded => "QUOTA_EXCEEDED"
    case BlobHashNotMatch => "BLOB_HASH_NOT_MATCH"
    case ShareNotFound => "SHARE_NOT_FOUND"
    case InvalidCredentials => "INVALID_CREDENTIALS"
    case InvalidSession => "INVALID_SESSION"
    case RegistrationDisabled => "REGISTRATION_DISABLED"
    case Base64DecodeError => "Base64 decode error"
  }
}
