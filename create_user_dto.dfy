/**
 * The registration payload `CreateUserDto` and the class-validator decorators
 * on its fields (src/modules/users/dto/create-user.dto.ts), read as a validity
 * predicate over a raw request body. Email syntax (`@IsEmail`) belongs to the
 * validator library and stays an abstract predicate `isEmail`.
 */
module UserDto {
  import opened Common

  /** A field of a parsed JSON body, as the validators see it. `NonString`
      stands for every value that is present but not a string (a number, a
      boolean, an object, an array). */
  datatype Value = Undefined | Null | Str(s: string) | NonString

  /** The request body before validation. */
  datatype CreateUserInput = CreateUserInput(
    username: Value,
    firstName: Value,
    lastName: Value,
    company: Value,
    email: Value,
    password: Value)

  /** The payload once it has passed validation, as the user service receives it. */
  datatype CreateUserDto = CreateUserDto(
    username: string,
    firstName: Option<string>,
    lastName: Option<string>,
    company: Option<string>,
    email: string,
    password: string)

  // The decorators, one predicate each.

  /** `@IsNotEmpty()`: neither `''`, `null` nor `undefined`. */
  predicate IsNotEmpty(v: Value) {
    v != Undefined && v != Null && v != Str("")
  }

  /** `@IsString()` */
  predicate IsString(v: Value) {
    v.Str?
  }

  /** `@MinLength(n)`: a string of at least `n` characters. */
  predicate MinLength(v: Value, n: nat) {
    v.Str? && |v.s| >= n
  }

  /** `@MaxLength(n)`: a string of at most `n` characters. */
  predicate MaxLength(v: Value, n: nat) {
    v.Str? && |v.s| <= n
  }

  /** `@IsEmail()`: a string the email-syntax rule accepts. */
  predicate IsEmail(v: Value, isEmail: string -> bool) {
    v.Str? && isEmail(v.s)
  }

  /** `@IsOptional()`: a `null` or `undefined` value skips the other checks. */
  predicate IsAbsent(v: Value) {
    v == Undefined || v == Null
  }

  const UsernameMinLength: nat := 3
  const UsernameMaxLength: nat := 30
  const PasswordMinLength: nat := 6

  /** `username`: `@IsNotEmpty @IsString @MinLength(3) @MaxLength(30)`. */
  function UsernameValid(v: Value): (ok: bool)
    ensures ok <==> v.Str? && 3 <= |v.s| <= 30
  {
    IsNotEmpty(v) && IsString(v) && MinLength(v, UsernameMinLength) && MaxLength(v, UsernameMaxLength)
  }

  /** `password`: `@IsNotEmpty @IsString @MinLength(6)`, no upper bound. */
  function PasswordValid(v: Value): (ok: bool)
    ensures ok <==> v.Str? && 6 <= |v.s|
  {
    IsNotEmpty(v) && IsString(v) && MinLength(v, PasswordMinLength)
  }

  /** `email`: `@IsNotEmpty @IsEmail`. */
  function EmailValid(v: Value, isEmail: string -> bool): (ok: bool)
    ensures ok <==> v.Str? && v.s != "" && isEmail(v.s)
  {
    IsNotEmpty(v) && IsEmail(v, isEmail)
  }

  /** `firstName`, `lastName`, `company`: `@IsOptional @IsString`. */
  function OptionalStringValid(v: Value): (ok: bool)
    ensures ok <==> v != NonString
  {
    IsAbsent(v) || IsString(v)
  }

  /** The whole body passes validation exactly when every field does. */
  function CreateUserInputValid(c: CreateUserInput, isEmail: string -> bool): (ok: bool)
    ensures ok <==>
      && c.username.Str? && 3 <= |c.username.s| <= 30
      && c.password.Str? && 6 <= |c.password.s|
      && c.email.Str? && c.email.s != "" && isEmail(c.email.s)
      && c.firstName != NonString && c.lastName != NonString && c.company != NonString
  {
    && UsernameValid(c.username)
    && OptionalStringValid(c.firstName)
    && OptionalStringValid(c.lastName)
    && OptionalStringValid(c.company)
    && EmailValid(c.email, isEmail)
    && PasswordValid(c.password)
  }

  /** An optional string field: present as a string, or absent. */
  function OptionalField(v: Value): (o: Option<string>)
    requires v != NonString
    ensures o.Some? <==> v.Str?
    ensures v.Str? ==> o.value == v.s
  {
    if v.Str? then Some(v.s) else None
  }

  /** The typed payload a valid body becomes; every field is carried over. */
  function ToDto(c: CreateUserInput, isEmail: string -> bool): (d: CreateUserDto)
    requires CreateUserInputValid(c, isEmail)
    ensures 3 <= |d.username| <= 30 && 6 <= |d.password| && d.email != "" && isEmail(d.email)
    ensures Str(d.username) == c.username && Str(d.email) == c.email && Str(d.password) == c.password
    ensures d.firstName.Some? <==> c.firstName.Str?
    ensures d.lastName.Some? <==> c.lastName.Str?
    ensures d.company.Some? <==> c.company.Str?
    ensures c.firstName.Str? ==> d.firstName == Some(c.firstName.s)
    ensures c.lastName.Str? ==> d.lastName == Some(c.lastName.s)
    ensures c.company.Str? ==> d.company == Some(c.company.s)
  {
    CreateUserDto(
      c.username.s,
      OptionalField(c.firstName),
      OptionalField(c.lastName),
      OptionalField(c.company),
      c.email.s,
      c.password.s)
  }

  /** The `@IsNotEmpty` on `username` and `password` adds nothing once the
      minimum length is checked. */
  lemma MinLengthImpliesNotEmpty(v: Value, n: nat)
    requires n >= 1 && MinLength(v, n)
    ensures IsNotEmpty(v) && IsString(v)
  {
  }

  /** Username and password validity, with the redundant `@IsNotEmpty` and
      `@IsString` left out, are unchanged. */
  lemma RedundantNotEmptyChecks(username: Value, password: Value)
    ensures UsernameValid(username) <==> MinLength(username, 3) && MaxLength(username, 30)
    ensures PasswordValid(password) <==> MinLength(password, 6)
  {
  }
}
