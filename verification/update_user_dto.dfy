/** The body of an update request: the create fields, every one of them optional. */
module UpdateDto {
  import opened Wrappers
  import opened Entities
  import opened FieldRules

  datatype UpdateUserDto = UpdateUserDto(
    email: Option<string>,
    name: Option<string>,
    password: Option<string>,
    status: Option<string>)

  /** The body that supplies nothing. */
  const Empty: UpdateUserDto := UpdateUserDto(None, None, None, None)

  /** Each supplied field meets its constraint; absent fields are not checked. */
  predicate IsValid(dto: UpdateUserDto, isEmail: string -> bool)
  {
    && (dto.email.None? || isEmail(dto.email.value))
    && (dto.name.None? || NameOk(dto.name.value))
    && (dto.password.None? || PasswordOk(dto.password.value))
    && StatusTyped(dto.status)
  }

  /** The per-field errors: one per supplied field that fails, none exactly when the body is valid. */
  function Violations(dto: UpdateUserDto, isEmail: string -> bool): (r: seq<Violation>)
    ensures r == [] <==> IsValid(dto, isEmail)
    ensures InvalidEmail in r <==> dto.email.Some? && !isEmail(dto.email.value)
    ensures NameTooShort in r <==> dto.name.Some? && |dto.name.value| < MinNameLength
    ensures PasswordTooShort in r <==> dto.password.Some? && |dto.password.value| < MinPasswordLength
    ensures UnknownStatus in r <==> dto.status.Some? && ParseStatus(dto.status.value).None?
  {
    CheckOptional(dto.email, isEmail, InvalidEmail)
    + CheckOptional(dto.name, NameOk, NameTooShort)
    + CheckOptional(dto.password, PasswordOk, PasswordTooShort)
    + CheckOptional(dto.status, StatusOk, UnknownStatus)
  }

  /** Every field is optional, so the empty body passes whatever the email check is. */
  lemma EmptyIsValid(isEmail: string -> bool)
    ensures Violations(Empty, isEmail) == []
  {
  }
}
