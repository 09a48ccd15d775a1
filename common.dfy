/** Result shapes shared by every request handler: the JSON envelope
    `{success, message, data}` becomes `Response<T>`, and each distinct
    failure message a handler can send becomes one `Reason`. */
module Common {

  datatype Option<+T> = None | Some(value: T)

  /** Why a handler answered `success = false`. */
  datatype Reason =
    | Forbidden            // isAdmin() / isLoggedIn() failed
    | WrongMethod          // checkRequestMethod('POST') failed
    | MissingFields        // a required field is empty
    | InvalidId            // an id <= 0
    | InvalidStatus        // a message status outside the four allowed ones
    | InvalidEmail         // FILTER_VALIDATE_EMAIL failed
    | InvalidContactEmail  // the optional contact address is not an email
    | NotFound             // no (active) row with that id
    | FileUnavailable      // file_path empty or not on disk
    | UploadRejected(message: string)  // uploadFile() reported failure
    | NothingToUpdate      // empty settings payload
    | MissingKey           // a settings lookup without a key
    | InvalidLimits        // an upload size limit <= 0
    | PasswordMismatch     // new and confirm passwords differ
    | PasswordTooShort     // fewer than 6 bytes
    | WrongCredentials     // login or current password did not verify
    | InvalidToken         // no user with that unexpired reset token
    | EmailNotRegistered   // forgot_password for an unknown address
    | EmailFailed          // sending an email failed
    | StorageError         // an exception reached the top-level catch

  /** The `success`/`data` half of a handler's JSON answer. */
  datatype Response<+T> = Success(data: T) | Failure(reason: Reason)
}
