/**
 * Registration and login (handlers/auth.go): the username and password policy
 * as pure validators, and the two handlers that run them against the store.
 * Email syntax (`net/mail.ParseAddress`) and bcrypt are passed in as functions.
 */
module AuthHandlers {
  import opened Wrappers
  import opened Models
  import opened Http
  import opened Ascii
  import Store
  import Token

  const MinUsernameLength := 6
  const MinPasswordLength := 8

  /** The characters of the `[!@#~$%^&*()+|_]` class. */
  const SpecialChars := "!@#~$%^&*()+|_"

  predicate IsSpecial(c: char) { c in SpecialChars }

  const MsgUsernameTooShort := "Username must be at least 6 characters long"
  const MsgUsernameNotAlphanumeric := "Username must contain only alphanumeric characters"
  const MsgInvalidEmail := "Invalid email format"
  const MsgPasswordTooShort := "Password must be at least 8 characters long"
  const MsgPasswordNoUpper := "Password must contain at least one uppercase letter"
  const MsgPasswordNoLower := "Password must contain at least one lowercase letter"
  const MsgPasswordNoDigit := "Password must contain at least one number"
  const MsgPasswordNoSpecial := "Password must contain at least one special character (!@#~$%^&*()+|_)"
  const MsgHashFailed := "Error hashing password"
  const MsgCreateFailed := "Error creating user"
  const MsgRegistered := "User successfully registered"
  const MsgPasswordRequired := "Password is required"
  const MsgInvalidCredentials := "Invalid credentials"
  const MsgTokenFailed := "Error generating token"

  /** The username policy: at least six bytes, all ASCII letters or digits. */
  ghost predicate AcceptableUsername(u: string) {
    |u| >= MinUsernameLength && forall i :: 0 <= i < |u| ==> IsAlphanumeric(u[i])
  }

  /** The password policy: at least eight bytes, with an upper-case letter, a lower-case letter, a digit and a special character. */
  ghost predicate StrongPassword(p: string) {
    && |p| >= MinPasswordLength
    && (exists i :: 0 <= i < |p| && IsUpper(p[i]))
    && (exists i :: 0 <= i < |p| && IsLower(p[i]))
    && (exists i :: 0 <= i < |p| && IsDigit(p[i]))
    && (exists i :: 0 <= i < |p| && IsSpecial(p[i]))
  }

  /** `validateUsername`: the length rule is checked before the character rule. */
  function ValidateUsername(username: string): (r: Outcome<string>)
    ensures r.Pass? <==> AcceptableUsername(username)
    ensures |username| < MinUsernameLength ==> r == Fail(MsgUsernameTooShort)
    ensures |username| >= MinUsernameLength && !AcceptableUsername(username) ==>
      r == Fail(MsgUsernameNotAlphanumeric)
  {
    if |username| < MinUsernameLength then Fail(MsgUsernameTooShort)
    else if !MatchesOnly(username, IsAlphanumeric) then Fail(MsgUsernameNotAlphanumeric)
    else Pass
  }

  /**
   * `validatePassword`: the rules are checked in the order length, upper case,
   * lower case, digit, special character, and only the first that fails is reported.
   */
  function ValidatePassword(password: string): (r: Outcome<string>)
    ensures r.Pass? <==> StrongPassword(password)
    ensures |password| < MinPasswordLength ==> r == Fail(MsgPasswordTooShort)
    ensures |password| >= MinPasswordLength && (forall i :: 0 <= i < |password| ==> !IsUpper(password[i])) ==>
      r == Fail(MsgPasswordNoUpper)
    ensures
      && |password| >= MinPasswordLength
      && (exists i :: 0 <= i < |password| && IsUpper(password[i]))
      && (forall i :: 0 <= i < |password| ==> !IsLower(password[i]))
      ==> r == Fail(MsgPasswordNoLower)
    ensures
      && |password| >= MinPasswordLength
      && (exists i :: 0 <= i < |password| && IsUpper(password[i]))
      && (exists i :: 0 <= i < |password| && IsLower(password[i]))
      && (forall i :: 0 <= i < |password| ==> !IsDigit(password[i]))
      ==> r == Fail(MsgPasswordNoDigit)
    ensures
      && |password| >= MinPasswordLength
      && (exists i :: 0 <= i < |password| && IsUpper(password[i]))
      && (exists i :: 0 <= i < |password| && IsLower(password[i]))
      && (exists i :: 0 <= i < |password| && IsDigit(password[i]))
      && !StrongPassword(password)
      ==> r == Fail(MsgPasswordNoSpecial)
  {
    if |password| < MinPasswordLength then Fail(MsgPasswordTooShort)
    else if !ContainsAny(password, IsUpper) then Fail(MsgPasswordNoUpper)
    else if !ContainsAny(password, IsLower) then Fail(MsgPasswordNoLower)
    else if !ContainsAny(password, IsDigit) then Fail(MsgPasswordNoDigit)
    else if !ContainsAny(password, IsSpecial) then Fail(MsgPasswordNoSpecial)
    else Pass
  }

  /** The password `weak` of the registration tests is refused by the length rule. */
  lemma WeakPasswordTooShort()
    ensures ValidatePassword("weak") == Fail(MsgPasswordTooShort)
  {
  }

  /**
   * The checks `Register` runs before touching the store, in its order: username,
   * then email, then password. `None` when all pass; otherwise the first failure's message.
   */
  function RegistrationError(input: Registration, isValidEmail: string -> bool): (r: Option<string>)
    ensures r.None? <==>
      AcceptableUsername(input.username) && isValidEmail(input.email) && StrongPassword(input.password)
    ensures !AcceptableUsername(input.username) ==> r == Some(ValidateUsername(input.username).message)
    ensures AcceptableUsername(input.username) && !isValidEmail(input.email) ==> r == Some(MsgInvalidEmail)
    ensures AcceptableUsername(input.username) && isValidEmail(input.email) && !StrongPassword(input.password) ==>
      r == Some(ValidatePassword(input.password).message)
  {
    match ValidateUsername(input.username)
    case Fail(m) => Some(m)
    case Pass =>
      if !isValidEmail(input.email) then Some(MsgInvalidEmail)
      else
        match ValidatePassword(input.password)
        case Fail(m) => Some(m)
        case Pass => None
  }

  /**
   * `Register`. `body` is the decoded body (`None`: it did not decode),
   * `isValidEmail` stands for `mail.ParseAddress` succeeding, and `hash` for
   * `bcrypt.GenerateFromPassword` (`None`: it failed). The body's `ID`, when it
   * has one, is the key the user is created under.
   */
  method Register(db: Store.Db, body: Option<Registration>,
                  isValidEmail: string -> bool, hash: string -> Option<string>)
    returns (resp: Response)
    requires db.Valid()
    modifies db
    ensures db.Valid()
    ensures body.None? ==> resp == Error(StatusBadRequest, MsgInvalidPayload) && unchanged(db)
    ensures body.Some? && RegistrationError(body.value, isValidEmail).Some? ==>
      && resp == Error(StatusBadRequest, RegistrationError(body.value, isValidEmail).value)
      && unchanged(db)
    ensures body.Some? && RegistrationError(body.value, isValidEmail).None? && hash(body.value.password).None? ==>
      resp == Error(StatusInternalServerError, MsgHashFailed) && unchanged(db)
    ensures body.Some? && RegistrationError(body.value, isValidEmail).None? && hash(body.value.password).Some? ==>
      var key := if body.value.id == 0 then old(db.nextUserId) else body.value.id;
      var stored := User(key, body.value.username, body.value.email, hash(body.value.password).value);
      if key in old(db.users) || Store.Collides(old(db.users), stored) then
        && resp == Error(StatusInternalServerError, MsgCreateFailed)
        && db.users == old(db.users)
      else
        && resp == Response(StatusCreated, Message(MsgRegistered))
        && key !in old(db.users)
        && db.users == old(db.users)[key := stored]
    ensures db.blogs == old(db.blogs) && db.deletedBlogs == old(db.deletedBlogs)
    ensures resp.status == StatusCreated <==> db.users != old(db.users)
  {
    if body.None? {
      return Error(StatusBadRequest, MsgInvalidPayload);
    }
    var user := body.value;
    var err := RegistrationError(user, isValidEmail);
    if err.Some? {
      return Error(StatusBadRequest, err.value);
    }
    var hashed := hash(user.password);
    if hashed.None? {
      return Error(StatusInternalServerError, MsgHashFailed);
    }
    user := user.(password := hashed.value);
    var created := db.InsertUser(User(user.id, user.username, user.email, user.password));
    if created.None? {
      return Error(StatusInternalServerError, MsgCreateFailed);
    }
    resp := Response(StatusCreated, Message(MsgRegistered));
  }

  /**
   * `Login`. `passwordMatches(hash, plaintext)` stands for
   * `bcrypt.CompareHashAndPassword` succeeding; `sign` and `now` are what
   * `GenerateJWT` signs with and the time it reads. The store is only read.
   */
  method Login(db: Store.Db, body: Option<Credentials>,
               passwordMatches: (string, string) -> bool, sign: Token.Signer, now: int)
    returns (resp: Response)
    requires db.Valid()
    ensures body.None? ==> resp == Error(StatusBadRequest, MsgInvalidPayload)
    ensures body.Some? && body.value.password == "" ==> resp == Error(StatusBadRequest, MsgPasswordRequired)
    ensures body.Some? && body.value.password != "" ==>
      (resp == Error(StatusUnauthorized, MsgInvalidCredentials) <==>
        forall id :: id in db.users && db.users[id].username == body.value.username ==>
          !passwordMatches(db.users[id].password, body.value.password))
    ensures resp.status == StatusOK ==> resp.body.TokenJson?
    ensures resp.status == StatusOK ==>
      exists id :: id in db.users
        && db.users[id].username == body.value.username
        && passwordMatches(db.users[id].password, body.value.password)
        && Token.GenerateJwt(id, now, sign) == Success(resp.body.token)
    ensures resp.status in {StatusOK, StatusBadRequest, StatusUnauthorized, StatusInternalServerError}
    ensures resp.status == StatusBadRequest ==> body.None? || body.value.password == ""
    ensures resp.status == StatusUnauthorized ==> resp == Error(StatusUnauthorized, MsgInvalidCredentials)
    ensures resp.status == StatusInternalServerError ==> resp == Error(StatusInternalServerError, MsgTokenFailed)
    ensures resp.status == StatusInternalServerError ==>
      exists id :: id in db.users
        && db.users[id].username == body.value.username
        && passwordMatches(db.users[id].password, body.value.password)
        && Token.GenerateJwt(id, now, sign).Failure?
  {
    if body.None? {
      return Error(StatusBadRequest, MsgInvalidPayload);
    }
    var creds := body.value;
    if creds.password == "" {
      return Error(StatusBadRequest, MsgPasswordRequired);
    }
    var found := db.FirstUserByName(creds.username);
    if found.None? {
      return Error(StatusUnauthorized, MsgInvalidCredentials);
    }
    var user := found.value;
    if !passwordMatches(user.password, creds.password) {
      return Error(StatusUnauthorized, MsgInvalidCredentials);
    }
    var token := Token.GenerateJwt(user.id, now, sign);
    if token.Failure? {
      return Error(StatusInternalServerError, MsgTokenFailed);
    }
    resp := Response(StatusOK, TokenJson(token.value));
  }
}
