/** registerFieldsValidator and loginFieldsValidator
    (src/resolvers/Authentication/authValidators.ts). */
module AuthValidators {
  import opened Wrappers
  import opened JsString
  import opened Models
  import opened EmailPattern

  datatype RegisterValidationErrors = RegisterValidationErrors(
    username: Option<string>,
    email: Option<string>,
    password: Option<string>,
    confirmPassword: Option<string>)
  {
    /** Object.keys(errors).length */
    function KeyCount(): nat {
      (if username.Some? then 1 else 0) + (if email.Some? then 1 else 0) +
      (if password.Some? then 1 else 0) + (if confirmPassword.Some? then 1 else 0)
    }
  }

  datatype LoginValidationErrors = LoginValidationErrors(
    username: Option<string>,
    password: Option<string>,
    general: Option<string>)
  {
    function KeyCount(): nat {
      (if username.Some? then 1 else 0) + (if password.Some? then 1 else 0) + (if general.Some? then 1 else 0)
    }
  }

  const NO_REGISTER_ERRORS := RegisterValidationErrors(None, None, None, None)
  const NO_LOGIN_ERRORS := LoginValidationErrors(None, None, None)

  datatype RegisterValidation = RegisterValidation(errors: RegisterValidationErrors, valid: bool)
  datatype LoginValidation = LoginValidation(errors: LoginValidationErrors, valid: bool)

  const USERNAME_EMPTY := "Username must not be empty"
  const EMAIL_EMPTY := "Email must not be empty"
  const EMAIL_FORMAT := "Email must have a valid email format"
  const PASSWORD_EMPTY := "Password must not be empty"
  const PASSWORDS_MUST_MATCH := "Passwords must match"

  /** The registration error record. The pattern is tried on the e-mail as given, untrimmed;
      the confirmation is compared only when the password is not blank. */
  function RegisterErrors(input: RegisterInput): (e: RegisterValidationErrors)
    ensures e.username == if Blank(input.username) then Some(USERNAME_EMPTY) else None
    ensures e.email == if Blank(input.email) then Some(EMAIL_EMPTY)
                       else if !MatchesEmailPattern(input.email) then Some(EMAIL_FORMAT)
                       else None
    ensures Blank(input.password) ==> e.password == Some(PASSWORD_EMPTY) && e.confirmPassword == None
    ensures !Blank(input.password) ==>
              e.password == None &&
              e.confirmPassword == if input.password != input.confirmPassword then Some(PASSWORDS_MUST_MATCH) else None
  {
    TrimIsEmptyIffBlank(input.username);
    TrimIsEmptyIffBlank(input.email);
    TrimIsEmptyIffBlank(input.password);
    var passwordBlank := Trim(input.password) == "";
    RegisterValidationErrors(
      username := if Trim(input.username) == "" then Some(USERNAME_EMPTY) else None,
      email :=
        if Trim(input.email) == "" then Some(EMAIL_EMPTY)
        else if !MatchesEmailPattern(input.email) then Some(EMAIL_FORMAT)
        else None,
      password := if passwordBlank then Some(PASSWORD_EMPTY) else None,
      confirmPassword :=
        if !passwordBlank && input.password != input.confirmPassword then Some(PASSWORDS_MUST_MATCH) else None)
  }

  /** The login error record: each field is checked on its own; `general` is never set here. */
  function LoginErrors(input: LoginInput): (e: LoginValidationErrors)
    ensures e.username == if Blank(input.username) then Some(USERNAME_EMPTY) else None
    ensures e.password == if Blank(input.password) then Some(PASSWORD_EMPTY) else None
    ensures e.general == None
  {
    TrimIsEmptyIffBlank(input.username);
    TrimIsEmptyIffBlank(input.password);
    LoginValidationErrors(
      username := if Trim(input.username) == "" then Some(USERNAME_EMPTY) else None,
      password := if Trim(input.password) == "" then Some(PASSWORD_EMPTY) else None,
      general := None)
  }

  /** The registration input is acceptable. */
  predicate RegisterInputOk(input: RegisterInput) {
    !Blank(input.username) && !Blank(input.email) && MatchesEmailPattern(input.email) &&
    !Blank(input.password) && input.password == input.confirmPassword
  }

  /** registerFieldsValidator, check by check. */
  method RegisterFieldsValidator(input: RegisterInput) returns (r: RegisterValidation)
    ensures r.errors == RegisterErrors(input)
    ensures r.valid <==> r.errors.KeyCount() == 0
    ensures r.valid <==> RegisterInputOk(input)
    ensures r.valid ==> r.errors == NO_REGISTER_ERRORS
  {
    var errors := NO_REGISTER_ERRORS;
    if Trim(input.username) == "" {
      errors := errors.(username := Some(USERNAME_EMPTY));
    }
    if Trim(input.email) == "" {
      errors := errors.(email := Some(EMAIL_EMPTY));
    } else {
      if !MatchesEmailPattern(input.email) {
        errors := errors.(email := Some(EMAIL_FORMAT));
      }
    }
    if Trim(input.password) == "" {
      errors := errors.(password := Some(PASSWORD_EMPTY));
    } else if input.password != input.confirmPassword {
      errors := errors.(confirmPassword := Some(PASSWORDS_MUST_MATCH));
    }
    r := RegisterValidation(errors, errors.KeyCount() < 1);
  }

  /** loginFieldsValidator, check by check. */
  method LoginFieldsValidator(input: LoginInput) returns (r: LoginValidation)
    ensures r.errors == LoginErrors(input)
    ensures r.valid <==> r.errors.KeyCount() == 0
    ensures r.valid <==> !Blank(input.username) && !Blank(input.password)
    ensures r.valid ==> r.errors == NO_LOGIN_ERRORS
  {
    var errors := NO_LOGIN_ERRORS;
    if Trim(input.username) == "" {
      errors := errors.(username := Some(USERNAME_EMPTY));
    }
    if Trim(input.password) == "" {
      errors := errors.(password := Some(PASSWORD_EMPTY));
    }
    r := LoginValidation(errors, errors.KeyCount() < 1);
  }
}
