/** Identifiers, optional values and request fields shared by every module. */
module Common {

  /** Primary key of a row in the users table. */
  type UserId = nat

  datatype Option<T> = None | Some(value: T)

  /** One key of an HTTP request as the validator sees it: the key was not sent
      at all, it was sent as JSON null (`Nil`), or it was sent with a value. Laravel's
      rules distinguish all three (`sometimes`, `nullable`, `required`). */
  datatype Field<T> = Absent | Nil | Given(value: T)
  {
    predicate Present() { !Absent? }
  }

  /** The checks and conversions whose exact definition lives in the framework
      or in PHP itself: Laravel's `email` and `date` rules, PHP's
      `filter_var(..., FILTER_VALIDATE_EMAIL)`, and the parse of a datetime
      string Eloquent performs when it assigns a datetime-cast attribute
      (the instant in seconds, or None where Carbon throws). They are
      parameters of the model. */
  datatype Validators = Validators(
    emailRule: string -> bool,
    dateRule: string -> bool,
    filterEmail: string -> bool,
    parseTime: string -> Option<int>)
}
