/** `AuthService` of backend/src/auth/auth.service.ts. bcrypt and the JWT signer are
    foreign code: they arrive as a parameter, and the only thing assumed of them is that a
    password matches its own hash. */
module Auth {
  import opened Errors
  import opened Schema

  /** What `generateToken` signs: `{ sub: userId, email }`. */
  datatype Payload = Payload(sub: Id, email: string)

  /** `bcrypt.hash(password, 10)`, `bcrypt.compare(password, hash)` and `jwtService.sign`. */
  datatype Crypto = Crypto(
    hash: string -> string,
    compare: (string, string) -> bool,
    sign: Payload -> string)

  /** The one property of bcrypt the service relies on: a password matches its own hash. */
  ghost predicate HashSound(c: Crypto) {
    forall p :: c.compare(p, c.hash(p))
  }

  datatype RegisterData = RegisterData(email: string, password: string, name: string)

  datatype LoginData = LoginData(email: string, password: string)

  /** The user as the responses show it; there is no password field to leak. */
  datatype PublicUser = PublicUser(id: Id, email: string, name: string)

  datatype RegisterResponse = RegisterResponse(message: string, user: PublicUser)

  datatype LoginResponse = LoginResponse(message: string, user: PublicUser, token: string)

  /** The columns `getProfile` selects. */
  datatype Profile = Profile(id: Id, email: string, name: string, createdAt: nat)

  function Public(u: User): PublicUser {
    PublicUser(id := u.id, email := u.email, name := u.name)
  }

  predicate EmailTaken(db: Db, email: string) {
    exists id | id in db.users :: db.users[id].email == email
  }

  /** The key of the one user with `email`; the unique index on the column makes it one. */
  function UserWithEmail(db: Db, email: string): (id: Id)
    requires Valid(db) && EmailTaken(db, email)
    ensures id in db.users && db.users[id].email == email
    ensures forall j :: j in db.users && db.users[j].email == email ==> j == id
  {
    var id :| id in db.users && db.users[id].email == email;
    id
  }

  /** `generateToken(userId, email)`: the token signs exactly the key and the email. */
  function GenerateToken(crypto: Crypto, userId: Id, email: string): string {
    crypto.sign(Payload(userId, email))
  }

  function RegisterBody(db: Db, crypto: Crypto, data: RegisterData, now: nat): Reply<RegisterResponse> {
    if EmailTaken(db, data.email) then Reply(db, Err(Conflict("Email already exists")))
    else
      var u := User(id := db.nextUserId, email := data.email, password := crypto.hash(data.password),
                    name := data.name, createdAt := now);
      Reply(db.(users := db.users[u.id := u], nextUserId := db.nextUserId + 1),
            Ok(RegisterResponse("User registered successfully", Public(u))))
  }

  /** `register(data)`, with `now` the database's `createdAt` default. It fails, changing
      nothing, exactly when the email is taken, so emails stay unique; otherwise it stores
      one new user holding the hash of the password, and answers without the password. */
  function Register(db: Db, crypto: Crypto, data: RegisterData, now: nat): (r: Reply<RegisterResponse>)
    requires Valid(db)
    ensures Valid(r.db)
    ensures r.result.Err? <==> EmailTaken(db, data.email)
    ensures r.result.Err? ==> r.db == db && r.result.error == InternalServerError("Failed to register user")
    ensures r.result.Ok? ==>
      var id := r.result.value.user.id;
      && id !in db.users
      && r.db.users == db.users[id := User(id, data.email, crypto.hash(data.password), data.name, now)]
      && r.db.posts == db.posts && r.db.categories == db.categories
      && r.result.value == RegisterResponse("User registered successfully", PublicUser(id, data.email, data.name))
  {
    Rethrow(RegisterBody(db, crypto, data, now), "Failed to register user")
  }

  /** Whether some stored user has this email and a hash the password matches. */
  predicate Matches(db: Db, crypto: Crypto, data: LoginData) {
    exists id | id in db.users :: db.users[id].email == data.email && crypto.compare(data.password, db.users[id].password)
  }

  function LoginBody(db: Db, crypto: Crypto, data: LoginData): Result<LoginResponse>
    requires Valid(db)
  {
    if !EmailTaken(db, data.email) then Err(Unauthorized("Invalid credentials"))
    else
      var u := db.users[UserWithEmail(db, data.email)];
      if !crypto.compare(data.password, u.password) then Err(Unauthorized("Invalid credentials"))
      else Ok(LoginResponse("Login successful", Public(u), GenerateToken(crypto, u.id, u.email)))
  }

  /** `login(data)`: it succeeds exactly when the user with that email has a hash the
      password matches, and then answers with that user, without the password, and a token
      over `{ sub: id, email }`. Login reads and never writes. */
  function Login(db: Db, crypto: Crypto, data: LoginData): (r: Result<LoginResponse>)
    requires Valid(db)
    ensures r.Ok? <==> Matches(db, crypto, data)
    ensures r.Err? ==> r.error == InternalServerError("Failed to login")
    ensures r.Ok? ==>
      var id := r.value.user.id;
      && id in db.users && db.users[id].email == data.email
      && crypto.compare(data.password, db.users[id].password)
      && r.value.message == "Login successful"
      && r.value.user == PublicUser(id, data.email, db.users[id].name)
      && r.value.token == crypto.sign(Payload(sub := id, email := data.email))
  {
    CatchAll(LoginBody(db, crypto, data), "Failed to login")
  }

  function GetProfileBody(db: Db, userId: Id): Result<Profile> {
    if userId in db.users then
      var u := db.users[userId];
      Ok(Profile(id := u.id, email := u.email, name := u.name, createdAt := u.createdAt))
    else Err(Unauthorized("User not found"))
  }

  /** `getProfile(userId)`: the user's non-secret columns, or an Unauthorized that passes
      through the catch block unchanged. */
  function GetProfile(db: Db, userId: Id): (r: Result<Profile>)
    requires Valid(db)
    ensures r.Ok? <==> userId in db.users
    ensures r.Ok? ==>
      var u := db.users[userId];
      r.value.id == userId && r.value.email == u.email && r.value.name == u.name && r.value.createdAt == u.createdAt
    ensures r.Err? ==> r.error == Unauthorized("User not found")
  {
    CatchAllExcept(GetProfileBody(db, userId), (e: Exception) => e.Unauthorized?, "Failed to get profile")
  }

  // ---------------------------------------------------------------------------
  // Properties across calls

  /** A user who has just registered can log in with the same email and password. */
  lemma RegisterThenLogin(db: Db, crypto: Crypto, data: RegisterData, now: nat)
    requires Valid(db) && HashSound(crypto) && Register(db, crypto, data, now).result.Ok?
    ensures var r := Register(db, crypto, data, now);
      Login(r.db, crypto, LoginData(data.email, data.password))
        == Ok(LoginResponse("Login successful", r.result.value.user,
                            crypto.sign(Payload(r.result.value.user.id, data.email))))
  {
    var r := Register(db, crypto, data, now);
    var id := r.result.value.user.id;
    assert r.db.users[id].password == crypto.hash(data.password);
    assert crypto.compare(data.password, crypto.hash(data.password));
    assert Matches(r.db, crypto, LoginData(data.email, data.password));
  }

  /** Registering the same email twice fails the second time and keeps the store. */
  lemma RegisterTwice(db: Db, crypto: Crypto, first: RegisterData, second: RegisterData, now: nat, later: nat)
    requires Valid(db) && Register(db, crypto, first, now).result.Ok? && second.email == first.email
    ensures var r := Register(db, crypto, first, now);
      Register(r.db, crypto, second, later) == Reply(r.db, Err(InternalServerError("Failed to register user")))
  {
    var r := Register(db, crypto, first, now);
    assert r.db.users[r.result.value.user.id].email == second.email;
  }

  /** An unknown email and a wrong password are answered alike: the service throws the
      same Unauthorized for both, and the caller sees the same error. */
  lemma LoginFailuresAlike(db: Db, crypto: Crypto, unknown: LoginData, wrong: LoginData)
    requires Valid(db) && !EmailTaken(db, unknown.email)
    requires EmailTaken(db, wrong.email)
    requires !crypto.compare(wrong.password, db.users[UserWithEmail(db, wrong.email)].password)
    ensures LoginBody(db, crypto, unknown) == LoginBody(db, crypto, wrong) == Err(Unauthorized("Invalid credentials"))
    ensures Login(db, crypto, unknown) == Login(db, crypto, wrong)
  {
  }

  /** The subject of a token from a successful login names the user who logged in: the
      profile behind it carries the email the token signs. */
  lemma TokenSubjectHasProfile(db: Db, crypto: Crypto, data: LoginData)
    requires Valid(db) && Login(db, crypto, data).Ok?
    ensures var r := Login(db, crypto, data).value;
      var p := GetProfile(db, r.user.id);
      p.Ok? && p.value.email == data.email && p.value.name == r.user.name
  {
  }
}
