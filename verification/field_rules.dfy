/**
 * The field constraints shared by the create and update request bodies:
 * a well-formed email, a name of at least two characters, a password of at
 * least eight, and a status that is one of the enum's values.
 * The email grammar of `IsEmail` is not modelled: every check takes it as
 * the parameter `isEmail`.
 */
module FieldRules {
  import opened Wrappers
  import opened Entities

  const MinNameLength: nat := 2
  const MinPasswordLength: nat := 8

  /** One failed field constraint, as the validation pipe reports it per field. */
  datatype Violation = InvalidEmail | NameTooShort | PasswordTooShort | UnknownStatus

  predicate NameOk(name: string)
  {
    |name| >= MinNameLength
  }

  predicate PasswordOk(password: string)
  {
    |password| >= MinPasswordLength
  }

  /** `IsEnum(UserStatus)`: the string is one of the status values. */
  predicate StatusOk(status: string)
  {
    ParseStatus(status).Some?
  }

  /** An optional status field holds a `UserStatus` when present: its declared type. */
  predicate StatusTyped(status: Option<string>)
  {
    status.None? || StatusOk(status.value)
  }

  /** An optional status field read as a `UserStatus`: absent stays absent, a value becomes its member. */
  function ReadStatus(status: Option<string>): (r: Option<UserStatus>)
    requires StatusTyped(status)
    ensures r.None? <==> status.None?
    ensures r.Some? ==> StatusName(r.value) == status.value
  {
    match status
    case None => None
    case Some(s) => ParseStatus(s)
  }

  /** The violation `v` when `ok` fails, nothing otherwise. */
  function Check(ok: bool, v: Violation): (r: seq<Violation>)
    ensures v in r <==> !ok
    ensures forall w | w in r :: w == v
  {
    if ok then [] else [v]
  }

  /** A constraint on an `@IsOptional()` field: an absent value is never checked. */
  function CheckOptional<T>(x: Option<T>, ok: T -> bool, v: Violation): (r: seq<Violation>)
    ensures v in r <==> x.Some? && !ok(x.value)
    ensures forall w | w in r :: w == v
  {
    match x
    case None => []
    case Some(value) => Check(ok(value), v)
  }
}
