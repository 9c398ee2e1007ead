/**
  The validation rules of the account forms. A form is valid when it yields
  no error. Each field's validators run in order; a missing (empty) input
  stops that field's chain with a single "required" error, while the other
  failures accumulate. The library's `Email()` syntax check is a parameter.
 */
module AccountForms {
  import opened Entities
  import opened UserTable

  datatype FormError =
    | UsernameRequired | UsernameLength | UsernameInUse
    | EmailRequired | EmailInvalid | EmailInUse | NoAccountForEmail
    | PasswordRequired | PasswordLength
    | ConfirmRequired | ConfirmMismatch

  const UsernameMinLength: int := 4
  const UsernameMaxLength: int := 20
  const PasswordMinLength: int := 8
  const PasswordMaxLength: int := 16

  datatype RegistrationForm = RegistrationForm(username: string, email: string, password: string, confirmPassword: string)
  datatype UpdateAccountForm = UpdateAccountForm(username: string, email: string)
  datatype RequestResetForm = RequestResetForm(email: string)
  datatype ResetPasswordForm = ResetPasswordForm(password: string, confirmPassword: string)
  datatype LoginForm = LoginForm(email: string, password: string, remember: bool)

  /** `InputRequired()` followed by the rest of the field's chain. */
  function Required(data: string, missing: FormError, rest: set<FormError>): set<FormError> {
    if data == "" then {missing} else rest
  }

  /** `Length(min, max)`. */
  function Length(data: string, min: int, max: int, e: FormError): set<FormError> {
    if min <= |data| <= max then {} else {e}
  }

  /** `EqualTo('password')` on the confirmation field. */
  function ConfirmErrors(password: string, confirm: string): set<FormError> {
    Required(confirm, ConfirmRequired, if confirm == password then {} else {ConfirmMismatch})
  }

  /** `Length(8, 16)` on the password field. */
  function PasswordErrors(password: string): set<FormError> {
    Required(password, PasswordRequired, Length(password, PasswordMinLength, PasswordMaxLength, PasswordLength))
  }

  /** The username chain; `own` is the name the update form exempts from the uniqueness query. */
  function UsernameErrors(t: Table, name: string, own: string, exempt: bool): set<FormError> {
    Required(name, UsernameRequired,
      Length(name, UsernameMinLength, UsernameMaxLength, UsernameLength)
      + (if (!exempt || name != own) && ByUsername(t, name).Some? then {UsernameInUse} else {}))
  }

  /** The email chain of the registration and update forms. */
  function EmailErrors(t: Table, email: string, own: string, exempt: bool, isEmail: string -> bool): set<FormError> {
    Required(email, EmailRequired,
      (if isEmail(email) then {} else {EmailInvalid})
      + (if (!exempt || email != own) && ByEmail(t, email).Some? then {EmailInUse} else {}))
  }

  /** `RegistrationForm`: bounded lengths, matching confirmation, and a username and email nobody holds. */
  function RegistrationErrors(t: Table, f: RegistrationForm, isEmail: string -> bool): (errs: set<FormError>)
    ensures UsernameInUse in errs <==> f.username != "" && UsernameTaken(t, f.username)
    ensures EmailInUse in errs <==> f.email != "" && EmailTaken(t, f.email)
    ensures errs == {} <==>
      && UsernameMinLength <= |f.username| <= UsernameMaxLength
      && !UsernameTaken(t, f.username)
      && f.email != "" && isEmail(f.email) && !EmailTaken(t, f.email)
      && PasswordMinLength <= |f.password| <= PasswordMaxLength
      && f.confirmPassword == f.password
  {
    UsernameErrors(t, f.username, "", false)
    + EmailErrors(t, f.email, "", false, isEmail)
    + PasswordErrors(f.password)
    + ConfirmErrors(f.password, f.confirmPassword)
  }

  /**
    `UpdateAccountForm` filled in by `me`: the uniqueness queries are skipped
    for a value equal to `me`'s current one.
   */
  function UpdateAccountErrors(t: Table, me: User, f: UpdateAccountForm, isEmail: string -> bool): (errs: set<FormError>)
    ensures UsernameInUse in errs <==> f.username != "" && f.username != me.username && UsernameTaken(t, f.username)
    ensures EmailInUse in errs <==> f.email != "" && f.email != me.email && EmailTaken(t, f.email)
    ensures errs == {} <==>
      && UsernameMinLength <= |f.username| <= UsernameMaxLength
      && (f.username == me.username || !UsernameTaken(t, f.username))
      && f.email != "" && isEmail(f.email)
      && (f.email == me.email || !EmailTaken(t, f.email))
  {
    UsernameErrors(t, f.username, me.username, true)
    + EmailErrors(t, f.email, me.email, true, isEmail)
  }

  /** `RequestResetForm`: the address must be well formed and belong to an account. */
  function RequestResetErrors(t: Table, f: RequestResetForm, isEmail: string -> bool): (errs: set<FormError>)
    ensures NoAccountForEmail in errs <==> f.email != "" && !EmailTaken(t, f.email)
    ensures errs == {} <==> f.email != "" && isEmail(f.email) && EmailTaken(t, f.email)
  {
    Required(f.email, EmailRequired,
      (if isEmail(f.email) then {} else {EmailInvalid})
      + (if ByEmail(t, f.email).None? then {NoAccountForEmail} else {}))
  }

  /** `ResetPasswordForm`: a password of 8 to 16 characters, confirmed. */
  function ResetPasswordErrors(f: ResetPasswordForm): (errs: set<FormError>)
    ensures errs == {} <==>
      PasswordMinLength <= |f.password| <= PasswordMaxLength && f.confirmPassword == f.password
  {
    PasswordErrors(f.password) + ConfirmErrors(f.password, f.confirmPassword)
  }

  /** `LoginForm`: a well-formed address and a non-empty password; no length bound. */
  function LoginErrors(f: LoginForm, isEmail: string -> bool): (errs: set<FormError>)
    ensures errs == {} <==> f.email != "" && isEmail(f.email) && f.password != ""
  {
    Required(f.email, EmailRequired, if isEmail(f.email) then {} else {EmailInvalid})
    + Required(f.password, PasswordRequired, {})
  }

  /** Resubmitting one's own username and email is never reported as taken. */
  lemma OwnValuesNeverTaken(t: Table, me: User, isEmail: string -> bool)
    ensures UsernameInUse !in UpdateAccountErrors(t, me, UpdateAccountForm(me.username, me.email), isEmail)
    ensures EmailInUse !in UpdateAccountErrors(t, me, UpdateAccountForm(me.username, me.email), isEmail)
  {
  }

  /** Taking over another user's username or email is rejected. */
  lemma OtherUsersValuesRejected(t: Table, me: User, other: User, f: UpdateAccountForm, isEmail: string -> bool)
    requires other in t && other != me
    requires (f.username == other.username && f.username != me.username)
      || (f.email == other.email && f.email != me.email)
    ensures UpdateAccountErrors(t, me, f, isEmail) != {}
  {
    var i :| 0 <= i < |t| && t[i] == other;
  }
}
