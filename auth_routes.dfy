/** The authentication routes: registration and login. Password hashing and token signing
    are foreign calls: hashing is a function parameter, comparison an oracle, and a token
    is represented by the claims it signs. */
module AuthRoutes {
  import opened Wrappers
  import opened Seqs
  import opened Strings
  import opened EmailPattern
  import opened Models

  /** The claims of a session token. Signing, the secret and the seven-day expiry are not
      modelled. */
  datatype Token = Token(sub: string)

  /** `createToken`: a token whose subject is the user's id string. */
  function CreateToken(userId: string): (t: Token)
    ensures t.sub == userId
  {
    Token(userId)
  }

  /** The user part of a successful reply. */
  datatype PublicUser = PublicUser(id: string, name: string, email: string)

  datatype AuthReply =
    | Authenticated(status: int, token: Token, user: PublicUser)
    | AuthError(status: int, message: string)

  const NameTooShort := "Name must be at least 2 characters"
  const BadEmail := "Please provide a valid email address"
  const PasswordTooShort := "Password must be at least 6 characters"
  const AllRequired := "Name, email, and password are required"

  /** The validation chain of `POST /register`: the first failing check's message, or `None`
      when the body may be registered. The name is measured after trimming, the password as
      given. */
  function RegisterCheck(name: Option<string>, email: Option<string>, password: Option<string>): (err: Option<string>)
    ensures (!Present(name) || |Trim(name.value)| < 2) ==> err == Some(NameTooShort)
    ensures Present(name) && |Trim(name.value)| >= 2 && (!Present(email) || !IsEmail(email.value)) ==>
      err == Some(BadEmail)
    ensures Present(name) && |Trim(name.value)| >= 2 && Present(email) && IsEmail(email.value)
            && (!Present(password) || |password.value| < 6) ==>
      err == Some(PasswordTooShort)
    ensures err.None? <==>
      Present(name) && |Trim(name.value)| >= 2 && Present(email) && IsEmail(email.value)
      && Present(password) && |password.value| >= 6
    // the fourth check can never fire: the first three already demand all three fields
    ensures err != Some(AllRequired)
  {
    if !Present(name) || |Trim(name.value)| < 2 then Some(NameTooShort)
    else if !Present(email) || !IsEmail(email.value) then Some(BadEmail)
    else if !Present(password) || |password.value| < 6 then Some(PasswordTooShort)
    else if !Present(name) || !Present(email) || !Present(password) then Some(AllRequired)
    else None
  }

  /** `POST /register`. A body that fails validation gets 400, an address already on record
      409, and neither creates a user. Otherwise a user with the hashed password is created
      and the reply carries a token for its id. `newId` is the id the new user gets, or `None`
      when the store throws (500); an id already taken is a duplicate-key error. */
  method Register(users: UserStore, name: Option<string>, email: Option<string>, password: Option<string>,
                  hash: string -> string, newId: Option<string>)
    returns (res: AuthReply)
    requires users.Valid()
    modifies users
    ensures users.Valid()
    ensures RegisterCheck(name, email, password).Some? ==>
      res == AuthError(400, RegisterCheck(name, email, password).value) && users.records == old(users.records)
    ensures RegisterCheck(name, email, password).None? && FindUserByEmail(old(users.records), email.value).Some? ==>
      res == AuthError(409, "Email already registered") && users.records == old(users.records)
    ensures res.Authenticated? <==>
      && RegisterCheck(name, email, password).None?
      && FindUserByEmail(old(users.records), email.value).None?
      && newId.Some? && (forall k | 0 <= k < |old(users.records)| :: old(users.records)[k].id != newId.value)
    ensures res.Authenticated? ==>
      && res.status == 201
      && users.records == old(users.records) + [User(newId.value, name.value, email.value, hash(password.value))]
      && res.token.sub == newId.value
      && res.user == PublicUser(newId.value, name.value, email.value)
    ensures (RegisterCheck(name, email, password).None? && FindUserByEmail(old(users.records), email.value).None?
             && !res.Authenticated?) ==> res == AuthError(500, "Unable to register")
    ensures res.AuthError? ==> users.records == old(users.records)
  {
    var err := RegisterCheck(name, email, password);
    if err.Some? {
      return AuthError(400, err.value);
    }
    if FindUserByEmail(users.records, email.value).Some? {
      return AuthError(409, "Email already registered");
    }
    if newId.None? || exists k | 0 <= k < |users.records| :: users.records[k].id == newId.value {
      return AuthError(500, "Unable to register");
    }
    var u := User(newId.value, name.value, email.value, hash(password.value));
    users.Insert(u);
    res := Authenticated(201, CreateToken(u.id), PublicUser(u.id, u.name, u.email));
  }

  const InvalidCredentials := "Invalid credentials"

  /** `POST /login`: 400 without both fields; 401 when no user has the address or the
      password does not match its hash (`compare` is bcrypt's verdict); otherwise a token for
      the user's id. */
  function Login(users: seq<User>, email: Option<string>, password: Option<string>,
                 compare: (string, string) -> bool): (r: AuthReply)
    ensures !Present(email) || !Present(password) ==> r == AuthError(400, "Email and password are required")
    ensures r.Authenticated? <==>
      Present(email) && Present(password)
      && (exists k | 0 <= k < |users| :: users[k].email == email.value)
      && compare(password.value, FindUserByEmail(users, email.value).value.passwordHash)
    ensures r.Authenticated? ==>
      var u := FindUserByEmail(users, email.value).value;
      r == Authenticated(200, Token(u.id), PublicUser(u.id, u.name, u.email)) && u in users
    ensures r.AuthError? && r.status != 400 ==> r == AuthError(401, InvalidCredentials)
  {
    if !Present(email) || !Present(password) then AuthError(400, "Email and password are required")
    else
      var found := FindUserByEmail(users, email.value);
      if found.None? then AuthError(401, InvalidCredentials)
      else if !compare(password.value, found.value.passwordHash) then AuthError(401, InvalidCredentials)
      else Authenticated(200, CreateToken(found.value.id), PublicUser(found.value.id, found.value.name, found.value.email))
  }

  /** An unknown address and a wrong password for a known one get the same reply, so the
      reply does not reveal which addresses are registered. */
  lemma LoginDoesNotRevealAccounts(users: seq<User>, unknown: string, known: string, password: string,
                                   compare: (string, string) -> bool)
    requires unknown != "" && known != "" && password != ""
    requires forall k | 0 <= k < |users| :: users[k].email != unknown
    requires FindUserByEmail(users, known).Some?
    requires !compare(password, FindUserByEmail(users, known).value.passwordHash)
    ensures Login(users, Some(unknown), Some(password), compare) == Login(users, Some(known), Some(password), compare)
    ensures Login(users, Some(unknown), Some(password), compare) == AuthError(401, InvalidCredentials)
  {
  }

  /** A registered user logs in with the password they registered with, given that the
      hash comparison accepts a password against its own hash: the token names their id. */
  lemma RegisteredUserCanLogIn(users: seq<User>, u: User, password: string,
                               hash: string -> string, compare: (string, string) -> bool)
    requires UniqueBy(users, UserEmail)
    requires u in users && u.email != "" && password != "" && u.passwordHash == hash(password)
    requires compare(password, hash(password))
    ensures Login(users, Some(u.email), Some(password), compare) == Authenticated(200, Token(u.id), PublicUser(u.id, u.name, u.email))
  {
    var k :| 0 <= k < |users| && users[k] == u;
    var found := FindUserByEmail(users, u.email).value;
    var j :| 0 <= j < |users| && users[j] == found;
    assert UserEmail(users[j]) == UserEmail(users[k]);
    assert j == k;
  }
}
