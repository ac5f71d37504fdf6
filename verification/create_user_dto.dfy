/** The body of a create request and the constraints it must meet before the service sees it. */
module CreateDto {
  import opened Wrappers
  import opened Entities
  import opened FieldRules

  /** The body as it arrives: `status` is optional and still a raw string. */
  datatype CreateUserDto = CreateUserDto(email: string, name: string, password: string, status: Option<string>)

  /** All four field decorators hold. */
  predicate IsValid(dto: CreateUserDto, isEmail: string -> bool)
  {
    && isEmail(dto.email)
    && NameOk(dto.name)
    && PasswordOk(dto.password)
    && StatusTyped(dto.status)
  }

  /**
   * The per-field errors the validation pipe reports: one entry per failed
   * constraint, and none exactly when the body is valid.
   */
  function Violations(dto: CreateUserDto, isEmail: string -> bool): (r: seq<Violation>)
    ensures r == [] <==> IsValid(dto, isEmail)
    ensures InvalidEmail in r <==> !isEmail(dto.email)
    ensures NameTooShort in r <==> |dto.name| < MinNameLength
    ensures PasswordTooShort in r <==> |dto.password| < MinPasswordLength
    ensures UnknownStatus in r <==> dto.status.Some? && ParseStatus(dto.status.value).None?
  {
    Check(isEmail(dto.email), InvalidEmail)
    + Check(NameOk(dto.name), NameTooShort)
    + Check(PasswordOk(dto.password), PasswordTooShort)
    + CheckOptional(dto.status, StatusOk, UnknownStatus)
  }

  /** A body that passed validation has a well-typed status, as the service's `create` requires. */
  lemma ValidIsTyped(dto: CreateUserDto, isEmail: string -> bool)
    requires IsValid(dto, isEmail)
    ensures StatusTyped(dto.status)
  {
  }
}
