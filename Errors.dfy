/**
 * Failure values of the ledger. Every service failure in the system is a
 * UseException that carries an activity (what was being attempted) and a type
 * (why it was refused); the model returns them as the `Err` case of `Result`.
 */
module Errors {

  /** An optional value, the model of `java.util.Optional` and of a nullable `Integer`. */
  datatype Option<+T> = None | Some(value: T)

  /** The operation that failed (exceptions/Activity.java). */
  datatype Activity =
    | CREATE_USER
    | UPDATE_USER
    | CREATE_ACCOUNT
    | UPDATE_ACCOUNT
    | INACTIVATE_ACCOUNT
    | CREATE_TRANSACTION
    | SUM_TRANSACTION
    | FIND_ACCOUNT

  /** The reasons the services throw. */
  datatype UseExceptionType =
    | USER_NOT_FOUND
    | ACCOUNT_NOT_FOUND
    | NOT_FOUND
    | NOT_ALLOWED
    | NOT_FUNDED
    | NOT_OWNER
    | NOT_ACTIVE
    | ACCOUNT_NOT_ACTIVE
    | ACCOUNT_NAME_NOT_UNIQUE
    | CANNOT_ADD_OWNER_AS_USER
    | USER_ALREADY_ASSIGNED_TO_THIS_ACCOUNT
    | USER_NOT_ASSIGNED_TO_THIS_ACCOUNT
    | USER_PERSONAL_ID_NOT_UNIQUE

  /** A thrown UseException: the activity and the type are all it carries that matters. */
  datatype UseError = UseError(activity: Activity, kind: UseExceptionType)

  /** The outcome of a service call: the value it returns, or the UseException it throws. */
  datatype Result<+T> = Ok(value: T) | Err(error: UseError)
}
