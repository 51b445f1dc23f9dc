/**
 * src/services/UserService.ts: registration and login over the `users` collection.
 * `register` inserts into the collection; `login` and `getUserById` are lookups over a
 * snapshot of it. Password hashing belongs to the bcryptjs library; the model receives
 * `hash` and `compare` as the two functions of a `Bcrypt` value.
 */
module Users {
  import opened Wrappers
  import opened ObjectIds
  import opened Collection
  import opened Models
  import opened Auth

  /**
   * The bcryptjs library: `hash(password, rounds, salt)`, the salt being the randomness
   * the library draws, and `compare(password, hashed)`.
   */
  datatype Bcrypt = Bcrypt(
    hash: (string, nat, string) -> string,
    compare: (string, string) -> bool)
  {
    /** What the library guarantees and the model relies on: a password matches its own hash. */
    ghost predicate Sound() {
      forall password: string, rounds: nat, salt: string ::
        compare(password, hash(password, rounds, salt))
    }
  }

  /** The cost factor passed to `bcrypt.hash`. */
  const SaltRounds: nat := 10

  const UserExistsError := "User with this email already exists"

  /** The one message of every failed login, whatever the reason. */
  const InvalidCredentialsError := "Invalid email or password"

  /** A document of the `users` collection; `password` holds the hash. */
  datatype UserDoc = UserDoc(
    id: ObjectId,
    email: string,
    password: string,
    name: string,
    createdAt: Timestamp,
    updatedAt: Timestamp)

  /** The `User` object the service returns for a document: the password is blanked. */
  function WithoutPassword(doc: UserDoc): (u: User)
    ensures u.password == ""
    ensures u.id == Some(doc.id) && u.email == doc.email && u.name == doc.name
    ensures u.createdAt == doc.createdAt && u.updatedAt == doc.updatedAt
  {
    User(Some(doc.id), doc.email, "", doc.name, doc.createdAt, doc.updatedAt)
  }

  /** The `_id` of a document, the field of the collection's unique index. */
  function UserId(doc: UserDoc): ObjectId {
    doc.id
  }

  /** The email of a document, the field `register` keeps unique. */
  function UserEmail(doc: UserDoc): string {
    doc.email
  }

  /** The number of documents with the given email. */
  function CountEmail(users: seq<UserDoc>, email: string): nat {
    if users == [] then 0
    else CountEmail(users[..|users| - 1], email) + (if users[|users| - 1].email == email then 1 else 0)
  }

  lemma {:induction false} CountEmailAbsent(users: seq<UserDoc>, email: string)
    requires !HasKey(users, UserEmail, email)
    ensures CountEmail(users, email) == 0
  {
    if users != [] {
      var prefix := users[..|users| - 1];
      assert !HasKey(prefix, UserEmail, email) by {
        forall i | 0 <= i < |prefix| ensures prefix[i].email != email {
          assert prefix[i] == users[i];
        }
      }
      CountEmailAbsent(prefix, email);
    }
  }

  /**
   * `login`: the stored user with that email, password blanked, and a token issued for
   * it at second `now`, provided the password matches the stored hash. An unknown email
   * and a wrong password fail with the same message.
   */
  function Login(users: seq<UserDoc>, auth: AuthService, bcrypt: Bcrypt, input: LoginInput, now: int)
    : (r: Result<AuthPayload>)
    ensures r.Err? ==> r.error == InvalidCredentialsError
    ensures !HasKey(users, UserEmail, input.email) ==> r.Err?
    ensures r.Ok? ==>
              exists i :: 0 <= i < |users| && users[i].email == input.email &&
                bcrypt.compare(input.password, users[i].password) &&
                r.value == AuthPayload(auth.GenerateToken(users[i].id, users[i].email, now), WithoutPassword(users[i]))
    ensures r.Ok? ==> r.value.user.password == ""
  {
    match FindOne(users, KeyFilter(UserEmail, input.email))
    case None => Err(InvalidCredentialsError)
    case Some(i) =>
      var userDoc := users[i];
      if !bcrypt.compare(input.password, userDoc.password) then Err(InvalidCredentialsError)
      else
        var user := WithoutPassword(userDoc);
        Ok(AuthPayload(auth.GenerateToken(userDoc.id, user.email, now), user))
  }

  /** When emails are unique, a login for a stored email succeeds exactly when `compare` accepts the password. */
  lemma LoginDecidedByCompare(users: seq<UserDoc>, auth: AuthService, bcrypt: Bcrypt, input: LoginInput, now: int,
                              k: nat)
    requires UniqueKeys(users, UserEmail)
    requires k < |users| && users[k].email == input.email
    ensures Login(users, auth, bcrypt, input, now).Ok? <==> bcrypt.compare(input.password, users[k].password)
  {
    assert KeyFilter(UserEmail, input.email)(users[k]);
    assert FindOne(users, KeyFilter(UserEmail, input.email)) == Some(k);
  }

  /** An unknown email and a wrong password produce the very same failure. */
  lemma LoginFailuresIndistinguishable(users: seq<UserDoc>, auth: AuthService, bcrypt: Bcrypt,
                                       unknown: LoginInput, wrong: LoginInput, now: int, k: nat)
    requires UniqueKeys(users, UserEmail)
    requires !HasKey(users, UserEmail, unknown.email)
    requires k < |users| && users[k].email == wrong.email && !bcrypt.compare(wrong.password, users[k].password)
    ensures Login(users, auth, bcrypt, unknown, now) == Login(users, auth, bcrypt, wrong, now) ==
      Err(InvalidCredentialsError)
  {
    LoginDecidedByCompare(users, auth, bcrypt, wrong, now, k);
  }

  /**
   * `getUserById`: the user with that id, password blanked, or None both when no
   * document has it and when `id` is not a well-formed ObjectId (the exception is caught).
   */
  function GetUserById(users: seq<UserDoc>, id: string): (r: Option<User>)
    ensures r.Some? <==> Parse(id).Some? && HasKey(users, UserId, Parse(id).value)
    ensures r.Some? ==> exists i :: 0 <= i < |users| && users[i].id == Parse(id).value && r.value == WithoutPassword(users[i])
    ensures r.Some? ==> r.value.password == "" && r.value.id == Some(Parse(id).value)
  {
    match Parse(id)
    case None => None
    case Some(key) =>
      match FindOne(users, KeyFilter(UserId, key))
      case None => None
      case Some(i) => Some(WithoutPassword(users[i]))
  }

  /** A document appended under a new email logs in with the password whose hash it stores. */
  lemma InsertedUserCanLogIn(users: seq<UserDoc>, doc: UserDoc, auth: AuthService, bcrypt: Bcrypt,
                             password: string, salt: string, now: int)
    requires !HasKey(users, UserEmail, doc.email)
    requires bcrypt.Sound() && doc.password == bcrypt.hash(password, SaltRounds, salt)
    ensures Login(users + [doc], auth, bcrypt, LoginInput(doc.email, password), now) ==
      Ok(AuthPayload(auth.GenerateToken(doc.id, doc.email, now), WithoutPassword(doc)))
  {
    var all := users + [doc];
    assert all[|users|] == doc;
    assert UserEmail(all[|users|]) == doc.email;
    assert KeyFilter(UserEmail, doc.email)(all[|users|]);
    assert FindOne(all, KeyFilter(UserEmail, doc.email)) == Some(|users|);
  }

  /** Appending a document under a new email leaves exactly one document with it, and keeps emails unique. */
  lemma InsertedEmailIsUnique(users: seq<UserDoc>, doc: UserDoc)
    requires !HasKey(users, UserEmail, doc.email)
    ensures CountEmail(users + [doc], doc.email) == 1
    ensures UniqueKeys(users, UserEmail) ==> UniqueKeys(users + [doc], UserEmail)
  {
    CountEmailAbsent(users, doc.email);
    var all := users + [doc];
    assert all[..|users|] == users;
    if UniqueKeys(users, UserEmail) {
      AppendKeepsKeysUnique(users, UserEmail, doc);
    }
  }

  /** A document appended under a fresh id is found by that id. */
  lemma InsertedUserIsFound(users: seq<UserDoc>, doc: UserDoc)
    requires !HasKey(users, UserId, doc.id)
    ensures GetUserById(users + [doc], doc.id) == Some(WithoutPassword(doc))
  {
    ParseToString(doc.id);
    var all := users + [doc];
    assert all[|users|] == doc;
    assert UserId(all[|users|]) == doc.id;
    assert KeyFilter(UserId, doc.id)(all[|users|]);
    assert FindOne(all, KeyFilter(UserId, doc.id)) == Some(|users|);
  }

  /** The service bound to the database's `users` collection. */
  class UserService {
    var users: seq<UserDoc>
    const authService: AuthService
    const bcrypt: Bcrypt

    ghost predicate Valid()
      reads this
    {
      UniqueKeys(users, UserId) && authService.secretKey != ""
    }

    /** `new UserService(db)`, which builds its own `AuthService` from the environment's `JWT_SECRET`. */
    constructor(users: seq<UserDoc>, jwtSecret: Option<string>, jwt: Jwt, bcrypt: Bcrypt)
      requires UniqueKeys(users, UserId)
      ensures Valid() && this.users == users && this.bcrypt == bcrypt
      ensures authService.jwt == jwt && authService.secretKey == NewAuthService(jwtSecret, jwt).secretKey
    {
      this.users := users;
      this.authService := NewAuthService(jwtSecret, jwt);
      this.bcrypt := bcrypt;
    }

    /**
     * `register`: fails, changing nothing, when a user with that email exists; otherwise
     * stores the email, the name and the hash of the password, and returns the new user
     * with the password blanked and a token for its id and email. `newId`, `salt`,
     * `createdAt`, `updatedAt` and `issuedAt` are what the driver, bcrypt, the two clock
     * reads and the clock `sign` reads (in seconds) produce; insertion fails, changing
     * nothing, when the id is already taken.
     */
    method Register(input: RegisterInput, newId: ObjectId, salt: string, createdAt: Timestamp, updatedAt: Timestamp,
                    issuedAt: int)
      returns (r: Result<AuthPayload>)
      requires Valid()
      modifies this
      ensures Valid()
      ensures HasKey(old(users), UserEmail, input.email) ==> r == Err(UserExistsError) && users == old(users)
      ensures !HasKey(old(users), UserEmail, input.email) && HasKey(old(users), UserId, newId) ==>
        r == Err(DuplicateKeyError) && users == old(users)
      ensures !HasKey(old(users), UserEmail, input.email) && !HasKey(old(users), UserId, newId) ==>
        users == old(users) + [UserDoc(newId, input.email, bcrypt.hash(input.password, SaltRounds, salt),
                                       input.name, createdAt, updatedAt)] &&
        r == Ok(AuthPayload(authService.GenerateToken(newId, input.email, issuedAt),
                            User(Some(newId), input.email, "", input.name, createdAt, updatedAt)))
      ensures r.Ok? ==> CountEmail(users, input.email) == 1
      ensures UniqueKeys(old(users), UserEmail) ==> UniqueKeys(users, UserEmail)
      ensures r.Ok? ==> GetUserById(users, newId) == Some(r.value.user)
      ensures r.Ok? && authService.jwt.Sound() ==>
        authService.VerifyToken(r.value.token) == Some(Claims(newId, input.email))
      ensures r.Ok? && bcrypt.Sound() ==>
        Login(users, authService, bcrypt, LoginInput(input.email, input.password), issuedAt) == r
      ensures r.Ok? && bcrypt.Sound() ==> forall now: int ::
        Login(users, authService, bcrypt, LoginInput(input.email, input.password), now) ==
          Ok(AuthPayload(authService.GenerateToken(newId, input.email, now), r.value.user))
    {
      if FindOne(users, KeyFilter(UserEmail, input.email)).Some? {
        return Err(UserExistsError);
      }
      var hashedPassword := bcrypt.hash(input.password, SaltRounds, salt);
      var userData := UserDoc(newId, input.email, hashedPassword, input.name, createdAt, updatedAt);
      if HasKey(users, UserId, newId) {
        return Err(DuplicateKeyError);
      }
      AppendKeepsKeysUnique(users, UserId, userData);
      InsertedEmailIsUnique(users, userData);
      InsertedUserIsFound(users, userData);
      if bcrypt.Sound() {
        forall now: int
          ensures Login(users + [userData], authService, bcrypt, LoginInput(input.email, input.password), now) ==
            Ok(AuthPayload(authService.GenerateToken(newId, input.email, now), WithoutPassword(userData)))
        {
          InsertedUserCanLogIn(users, userData, authService, bcrypt, input.password, salt, now);
        }
      }
      users := users + [userData];
      var user := WithoutPassword(userData);
      var token := authService.GenerateToken(newId, user.email, issuedAt);
      r := Ok(AuthPayload(token, user));
    }
  }
}
