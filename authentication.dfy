/** register, login, currentUser and generateToken (src/resolvers/Authentication/auth.ts),
    over a user collection held as a sequence in store order. Password hashing and comparison
    and token signing are parameters. */
module Authentication {
  import opened Wrappers
  import opened JsString
  import opened JsArray
  import opened Models
  import opened AuthHeader
  import opened AuthValidators

  /** What register and login answer: the user's identity and a fresh token. */
  datatype AuthPayload = AuthPayload(id: string, username: string, email: string, token: string)

  datatype RegisterError =
    | RegistrationInputErrors(errors: RegisterValidationErrors)
    | UsernameAlreadyUsed(errors: RegisterValidationErrors)
    | EmailAlreadyUsed(errors: RegisterValidationErrors)
  {
    function Message(): string {
      match this
      case RegistrationInputErrors(_) => "Registration Input Errors"
      case UsernameAlreadyUsed(_) => "Username already used"
      case EmailAlreadyUsed(_) => "Email already used"
    }
  }

  datatype LoginError =
    | LoginInputErrors(errors: LoginValidationErrors)
    | IncorrectCredentials(errors: LoginValidationErrors)
  {
    function Message(): string {
      match this
      case LoginInputErrors(_) => "Login Input Errors"
      case IncorrectCredentials(_) => INCORRECT_CREDENTIALS
    }
  }

  const INCORRECT_CREDENTIALS := "Username or password are incorrect"
  const NOT_AUTHENTICATED := "Not authenticated!"

  /** The one error record both kinds of failed login carry. */
  const BAD_LOGIN_ERRORS := NO_LOGIN_ERRORS.(general := Some(INCORRECT_CREDENTIALS))

  /** The claims generateToken signs: the user's id, username and e-mail. */
  function TokenClaims(u: User): UserInfo {
    UserInfo(u.id, u.username, u.email)
  }

  /** generateToken; `sign` stands for signing with the secret key and a 24 hour expiry. */
  function GenerateToken(u: User, sign: UserInfo -> string): string {
    sign(TokenClaims(u))
  }

  /** A token issued for u and sent back as "Bearer <token>" authenticates as u, provided the
      verifier accepts what the signer produced and the token does not itself contain "Bearer ". */
  lemma {:induction false} IssuedTokenIdentifiesItsUser(u: User, sign: UserInfo -> string, verify: string -> Option<UserInfo>)
    requires verify(sign(TokenClaims(u))) == Some(TokenClaims(u))
    requires GenerateToken(u, sign) != "" && IndexOf(GenerateToken(u, sign), BEARER, 0).None?
    ensures GetUserInfo(Some(BEARER + GenerateToken(u, sign)), verify) == Success(UserInfo(u.id, u.username, u.email))
  {
    var t := GenerateToken(u, sign);
    var h := BEARER + t;
    assert h[0..|BEARER|] == BEARER;
    assert IndexOf(h, BEARER, 0) == Some(0);
    assert h[|BEARER|..] == t;
    IndexOfInSuffix(h, BEARER, |BEARER|, 0);
    assert TokenEnd(h, |BEARER|) == |h|;
    assert h[|BEARER|..|h|] == t;
  }

  predicate SameUsername(u: User, name: string) {
    u.username == name
  }

  predicate SameEmail(u: User, email: string) {
    u.email == email
  }

  predicate SameId(u: User, id: string) {
    u.id == id
  }

  /** findOne({ username }) */
  function FindByUsername(users: seq<User>, name: string): (r: Option<nat>)
    ensures r.Some? ==> r.value < |users| && users[r.value].username == name
    ensures r.None? ==> forall i :: 0 <= i < |users| ==> users[i].username != name
  {
    FirstIndex(users, (u: User) => SameUsername(u, name))
  }

  /** findOne({ _id }) */
  function FindById(users: seq<User>, id: string): (r: Option<nat>)
    ensures r.Some? ==> r.value < |users| && users[r.value].id == id
    ensures r.None? ==> forall i :: 0 <= i < |users| ==> users[i].id != id
  {
    FirstIndex(users, (u: User) => SameId(u, id))
  }

  /** countDocuments({ email }) is non-zero. */
  function EmailTaken(users: seq<User>, email: string): (taken: bool)
    ensures taken <==> exists i :: 0 <= i < |users| && users[i].email == email
  {
    FirstIndex(users, (u: User) => SameEmail(u, email)).Some?
  }

  /** No two users share an id, a username or an e-mail. */
  ghost predicate UniqueUsers(users: seq<User>) {
    forall i, j :: 0 <= i < j < |users| ==>
      users[i].id != users[j].id && users[i].username != users[j].username && users[i].email != users[j].email
  }

  /** A user whose id, username and e-mail are all new keeps the collection unique. */
  lemma AppendFreshUser(users: seq<User>, u: User)
    requires UniqueUsers(users)
    requires forall i :: 0 <= i < |users| ==> users[i].id != u.id && users[i].username != u.username && users[i].email != u.email
    ensures UniqueUsers(users + [u])
  {
  }

  class UserStore {
    var users: seq<User>

    ghost predicate Valid()
      reads this
    {
      UniqueUsers(users)
    }

    constructor ()
      ensures Valid() && users == []
    {
      users := [];
    }

    /** register. `newId` is the id the store assigns to the new document. */
    method Register(input: RegisterInput, newId: string, hash: string -> string, sign: UserInfo -> string)
      returns (r: Result<AuthPayload, RegisterError>)
      requires Valid()
      requires forall i :: 0 <= i < |users| ==> users[i].id != newId
      modifies this
      ensures Valid()
      ensures !RegisterInputOk(input) ==>
                r == Failure(RegistrationInputErrors(RegisterErrors(input))) && users == old(users)
      ensures RegisterInputOk(input) && FindByUsername(old(users), input.username).Some? ==>
                r == Failure(UsernameAlreadyUsed(NO_REGISTER_ERRORS.(username := Some("Username already used!")))) &&
                users == old(users)
      ensures RegisterInputOk(input) && FindByUsername(old(users), input.username).None? &&
              EmailTaken(old(users), input.email) ==>
                r == Failure(EmailAlreadyUsed(NO_REGISTER_ERRORS.(email := Some("Email already used!")))) &&
                users == old(users)
      ensures RegisterInputOk(input) && FindByUsername(old(users), input.username).None? &&
              !EmailTaken(old(users), input.email) ==>
                var u := User(newId, input.username, input.email, hash(input.password));
                users == old(users) + [u] &&
                r == Success(AuthPayload(newId, input.username, input.email, GenerateToken(u, sign)))
    {
      var v := RegisterFieldsValidator(input);
      if !v.valid {
        return Failure(RegistrationInputErrors(v.errors));
      }
      var errors := v.errors;
      var existingUser := FindByUsername(users, input.username).Some?;
      var existingEmail := EmailTaken(users, input.email);
      if existingUser {
        errors := errors.(username := Some("Username already used!"));
        return Failure(UsernameAlreadyUsed(errors));
      }
      if existingEmail {
        errors := errors.(email := Some("Email already used!"));
        return Failure(EmailAlreadyUsed(errors));
      }
      var hashedPassword := hash(input.password);
      var user := User(newId, input.username, input.email, hashedPassword);
      AppendFreshUser(users, user);
      users := users + [user];
      var token := GenerateToken(user, sign);
      r := Success(AuthPayload(user.id, user.username, user.email, token));
    }

    /** login. `compare` stands for checking a password against a stored hash. An unknown
        username and a wrong password give the same failure. */
    method Login(input: LoginInput, compare: (string, string) -> bool, sign: UserInfo -> string)
      returns (r: Result<AuthPayload, LoginError>)
      ensures (r.Failure? && r.error.LoginInputErrors?) <==> Blank(input.username) || Blank(input.password)
      ensures r.Failure? && r.error.LoginInputErrors? ==> r.error.errors == LoginErrors(input)
      ensures r.Failure? && !r.error.LoginInputErrors? ==> r.error == IncorrectCredentials(BAD_LOGIN_ERRORS)
      ensures r.Success? <==>
                !Blank(input.username) && !Blank(input.password) &&
                FindByUsername(users, input.username).Some? &&
                compare(input.password, users[FindByUsername(users, input.username).value].password)
      ensures r.Success? ==>
                var u := users[FindByUsername(users, input.username).value];
                r.value == AuthPayload(u.id, u.username, u.email, GenerateToken(u, sign))
    {
      var v := LoginFieldsValidator(input);
      if !v.valid {
        return Failure(LoginInputErrors(v.errors));
      }
      var errors := v.errors;
      var found := FindByUsername(users, input.username);
      if found.None? {
        errors := errors.(general := Some(INCORRECT_CREDENTIALS));
        return Failure(IncorrectCredentials(errors));
      }
      var user := users[found.value];
      var passwordValid := compare(input.password, user.password);
      if !passwordValid {
        errors := errors.(general := Some(INCORRECT_CREDENTIALS));
        return Failure(IncorrectCredentials(errors));
      }
      var token := GenerateToken(user, sign);
      r := Success(AuthPayload(user.id, user.username, user.email, token));
    }

    /** currentUser: the stored user named by the request's identity. */
    method CurrentUser(userInfo: Option<UserInfo>) returns (r: Result<UserInfo, string>)
      ensures r.Failure? ==> r.error == NOT_AUTHENTICATED
      ensures r.Success? <==> userInfo.Some? && exists i :: 0 <= i < |users| && users[i].id == userInfo.value.id
      ensures r.Success? ==> exists i :: 0 <= i < |users| && users[i].id == userInfo.value.id &&
                                         r.value == UserInfo(users[i].id, users[i].username, users[i].email)
    {
      if userInfo.None? {
        return Failure(NOT_AUTHENTICATED);
      }
      var found := FindById(users, userInfo.value.id);
      if found.None? {
        return Failure(NOT_AUTHENTICATED);
      }
      var user := users[found.value];
      r := Success(UserInfo(user.id, user.username, user.email));
    }
  }
}
