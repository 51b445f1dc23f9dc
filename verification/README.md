# Task and user services of a GraphQL/MongoDB backend, modelled in Dafny

The backend keeps tasks and users in two MongoDB collections. Three service classes hold
its logic:

- `AuthService` issues and checks JSON Web Tokens and takes the token out of an
  `Authorization: Bearer <token>` header.
- `UserService` registers users and logs them in. Passwords are stored as bcrypt hashes,
  and every user it returns has its password blanked.
- `TaskService` creates, deletes, lists and fetches tasks.

The model has seven modules:

- `Wrappers`: `Option` (for `null`/`undefined`) and `Result` (a value, or the message of
  a thrown `Error`).
- `ObjectIds`: the text form of a MongoDB ObjectId. `Parse` is `new ObjectId(s)`, which
  accepts exactly 24 hexadecimal digits in either case; `None` stands for the exception.
- `Collection`: a collection as the sequence of its documents in natural order, with
  `findOne` and `deleteOne` (the first document a filter matches) and the duplicate-key
  error of `insertOne`. `HasKey`, `UniqueKeys` and `KeyFilter` take the indexed field as
  a projection, so the `_id` index of both collections and the email check of `register`
  share one definition.
- `Models`: the `User`, `Task` and input records of `src/models/`.
- `Auth`: `AuthService`. It is pure, so it is a datatype holding the secret and the
  jsonwebtoken functions. The header parser is modelled in full, with JavaScript's
  `split(' ')` as `Split`.
- `Users`: a `UserService` class whose `users` field is the collection. `Register` is a
  method that changes it; `Login` and `GetUserById` are functions over a snapshot.
- `Tasks`: a `TaskService` class whose `tasks` field is the collection. `CreateTask` and
  `DeleteTask` are methods; `GetAllTasks` and `GetTaskById` are functions over a snapshot.

Foreign code and the environment come in as values:

- bcryptjs is a `Bcrypt` value holding `hash(password, rounds, salt)` and
  `compare(password, hashed)`. Its `Sound()` predicate says that a password matches its
  own hash.
- jsonwebtoken is a `Jwt` value holding `sign` and `verify`; `verify` returns `Err`
  where the library throws. Its `Sound()` predicate says that a token verifies, under the
  non-empty secret it was signed with, to the payload it was signed with, and that a token
  has no space in it. That is the library's behaviour before the token expires. `sign`
  also receives the clock in whole seconds that it reads for the token's `iat` claim, so
  two tokens for the same user are equal only when issued in the same second.
- The `_id` the driver generates, the bcrypt salt, the two separate `new Date()` reads
  (`createdAt` and `updatedAt` may differ) and the second at which a token is signed are
  parameters. A `Date` is an
  integer number of milliseconds.
- The services' invariant `Valid()` is the collection's unique `_id` index. Inserting
  under an `_id` that is already taken fails and changes nothing.

What the code does that a reader might not expect:

- No task has an owner, and nothing is scoped per user. `Task` has no owner field,
  `createTask` stores none, `getAllTasks` lists every task, and the GraphQL context
  carries only the database handle.
- `deleteTask` on a malformed id throws `Failed to delete task: …`; it does not return
  `false`.
- No operation checks authentication. The GraphQL resolvers (src/graphql/GraphQL.ts:40-57)
  build a `TaskService` and forward their arguments to it unchanged, and the schema has
  no `register`, `login` or `me`.

## Model

| member | source | states |
|---|---|---|
| `ObjectIds.Parse` | src/services/TaskService.ts:64 | `new ObjectId(s)` succeeds exactly on 24 hexadecimal digits, and yields the identifier with those digits in lower case |
| `ObjectIds.ParseToString` | src/services/TaskService.ts:69 | parsing the string an identifier prints as (`_id.toString()`) gives back that identifier |
| `Collection.FindOne` | src/services/UserService.ts:57-59 | `findOne` yields the first document the filter matches, and yields none only when no document matches |
| `Collection.DeleteOne` | src/services/TaskService.ts:33-35 | `deleteOne` takes out exactly the first matching document; with no match the collection is unchanged |
| `Collection.AppendKeepsKeysUnique` | src/services/TaskService.ts:22 | inserting a document whose key no stored document has keeps that key unique; the services use it for `_id` and `register` for the email |
| `Collection.UniqueAfterRemovingAt` | src/services/TaskService.ts:35 | taking one document out of a collection keeps unique keys unique |
| `Auth.AuthService.GenerateToken` | src/services/AuthService.ts:10-16 | under a sound jsonwebtoken and a non-empty secret, the token verifies to exactly the `{userId, email}` it was issued for, whatever second it was issued in, and contains no space |
| `Auth.AuthService.VerifyToken` | src/services/AuthService.ts:18-25 | never throws: the result is None exactly when the verifier fails, and otherwise the decoded payload |
| `Auth.NewAuthService` | src/services/AuthService.ts:6-8 | the secret is `JWT_SECRET` when set and non-empty and the built-in default otherwise, so it is never empty |
| `Auth.Split` | src/services/AuthService.ts:31 | `split(' ')` gives at least one piece, none containing the separator, and joining the pieces gives back the string |
| `Auth.SplitUnique` | src/services/AuthService.ts:31 | the pieces are determined by the string: any separator-free pieces that join to it are what `split` returns |
| `Auth.GetTokenFromHeader` | src/services/AuthService.ts:27-37 | an absent or empty header yields None; a token t is returned only when the header is exactly `"Bearer " + t` and t has no space |
| `Auth.HeaderRoundTrip` | src/services/AuthService.ts:31-36 | every space-free token, the empty one included, is recovered from `"Bearer " + t` |
| `Auth.BearerHeaderExact` | src/services/AuthService.ts:31-36 | a header yields t if and only if it equals `"Bearer " + t` and t contains no space |
| `Auth.LowerCaseSchemeRejected` | src/services/AuthService.ts:32 | the scheme is compared case-sensitively: `"bearer x"` yields None |
| `Auth.DoubleSpaceRejected` | src/services/AuthService.ts:31-33 | two spaces make three pieces: `"Bearer  x"` yields None |
| `Auth.ExtraPieceRejected` | src/services/AuthService.ts:31-33 | exactly two pieces are required: `"Bearer x y"` yields None |
| `Auth.IssuedTokenIdentifiesRequest` | src/services/AuthService.ts:10-36 | a token the service issued, sent as `"Bearer " + token`, is extracted intact and verifies to the user id and email it was issued for |
| `Users.WithoutPassword` | src/services/UserService.ts:40-47 | the `User` the service hands out for a document has password `''`, its `_id` and every other field as stored |
| `Users.Login` | src/services/UserService.ts:55-85 | every failure carries the one message "Invalid email or password"; an unknown email fails; a success returns a stored user with that email whose hash `compare` accepts, password blanked, with a token for its `_id` and email issued at the second of the login |
| `Users.LoginDecidedByCompare` | src/services/UserService.ts:61-70 | when emails are unique, a login for a stored email succeeds if and only if `compare(password, stored hash)` holds |
| `Users.LoginFailuresIndistinguishable` | src/services/UserService.ts:61-70 | an unknown email and a wrong password produce the identical failure |
| `Users.GetUserById` | src/services/UserService.ts:87-106 | None exactly when the id is malformed or no document has it; a found user is that document's, with the canonical id and the password blanked |
| `Users.CountEmailAbsent` | src/services/UserService.ts:18-24 | when no document has the email, the number of documents with it is zero |
| `Users.InsertedUserCanLogIn` | src/services/UserService.ts:27-38 | a user stored under a new email with the hash of a password logs in with that password at any second, getting back the stored user without its password and a token for it issued at that second |
| `Users.InsertedEmailIsUnique` | src/services/UserService.ts:18-38 | after an insert under a new email exactly one document has that email, and unique emails stay unique |
| `Users.InsertedUserIsFound` | src/services/UserService.ts:38-47 | a user inserted under a fresh id is found by that id, password blanked |
| `Users.UserService.constructor` | src/services/UserService.ts:11-14 | the service starts on the collection given and builds its own `AuthService` from the environment |
| `Users.UserService.Register` | src/services/UserService.ts:16-53 | an existing email fails with "User with this email already exists" and changes nothing; otherwise exactly one document is added with the email, the name and `hash(password, 10, salt)`, the result is that user with password `''` and a token for its `_id` and email, it is the only one with that email, it is found by id, its token verifies to its `_id` and email, and logging in with the same password at any later second returns the same user with a token issued at that second, which is the very token `register` returned when it is the same second |
| `Tasks.OrEmpty` | src/services/TaskService.ts:16 | the JavaScript `value or ''` fallback is the value whenever one is present and `''` when it is absent |
| `Tasks.ToTaskFields` | src/services/TaskService.ts:50-57 | `ToTask`, the task read from a document, has the `_id` as a string, the stored description or `''` when it is missing, and every other field as stored |
| `Tasks.Views` | src/services/TaskService.ts:50-57 | mapping documents to tasks keeps the number of elements |
| `Tasks.ViewsAt` | src/services/TaskService.ts:50-57 | the i-th task of the mapping is built from the i-th document |
| `Tasks.NewestFirstEverywhere` | src/services/TaskService.ts:47 | when each document was created no earlier than the next, every document was created no earlier than all later ones |
| `Tasks.InsertNewestFirst` | src/services/TaskService.ts:47 | inserting into a newest-first sequence keeps it newest-first and one longer |
| `Tasks.InsertAddsDoc` | src/services/TaskService.ts:47 | inserting adds exactly the inserted document to the multiset of documents |
| `Tasks.SortNewestFirst` | src/services/TaskService.ts:47 | `sort({ createdAt: -1 })` keeps the number of documents and orders them newest first |
| `Tasks.SortPermutes` | src/services/TaskService.ts:44-48 | the sorted documents are a permutation of the stored ones: none lost, added or duplicated |
| `Tasks.ViewsOfInsert` | src/services/TaskService.ts:47-57 | mapping after inserting yields the mapped documents plus the inserted document's task |
| `Tasks.ViewsOfSort` | src/services/TaskService.ts:44-57 | sorting and then mapping yields exactly the mapped documents, in some order |
| `Tasks.GetAllTasks` | src/services/TaskService.ts:43-58 | every stored task, none filtered out (same length, a permutation of the mapped documents), by `createdAt` non-increasing, each with an id and a description |
| `Tasks.GetTaskById` | src/services/TaskService.ts:60-79 | None exactly when the id is malformed or no document has it; a found task is that document's, with the canonical id |
| `Tasks.RemoveTask` | src/services/TaskService.ts:33-35 | deleting by id leaves the collection unchanged when no document has the id, and otherwise takes out exactly one document that has it |
| `Tasks.RemoveTaskCount` | src/services/TaskService.ts:31-37 | deleting by id removes one document when one has the id and none otherwise |
| `Tasks.RemoveTaskKeepsOthers` | src/services/TaskService.ts:31-37 | deleting by id keeps every document with another id |
| `Tasks.RemoveTaskAddsNothing` | src/services/TaskService.ts:31-37 | deleting by id leaves only documents that were already stored |
| `Tasks.RemoveTaskLeavesNoMatch` | src/services/TaskService.ts:31-37 | with unique ids, no document with the deleted id is left |
| `Tasks.RemoveTaskKeepsIdsUnique` | src/services/TaskService.ts:31-37 | deleting by id keeps the ids unique |
| `Tasks.CreatedTaskIsFound` | src/services/TaskService.ts:22-28 | a task inserted under a fresh id is fetched by that id as the stored document |
| `Tasks.CreatedTaskIsListed` | src/services/TaskService.ts:22-57 | a task inserted into the collection appears in the listing |
| `Tasks.RemovedTaskIsGone` | src/services/TaskService.ts:31-79 | after deleting by a well-formed id, fetching that id yields None |
| `Tasks.TaskService.constructor` | src/services/TaskService.ts:8-10 | the service starts on the collection given |
| `Tasks.TaskService.CreateTask` | src/services/TaskService.ts:12-29 | exactly one document is appended, with `completed == false` and the input's description or `''`; the returned task has the inserted `_id` and the stored fields; it is then fetched by id and listed; a taken id fails and changes nothing |
| `Tasks.TaskService.DeleteTask` | src/services/TaskService.ts:31-41 | a malformed id throws an error starting "Failed to delete task: " and changes nothing; otherwise the result is `true` exactly when a document had the id, at most that one document is removed, all others are kept, and the id then fetches None |

## Left out

- Everything outside the three services: environment loading and the MongoDB connection
  (src/config/database.ts), the Express routes and health checks (src/routes/), and the
  application bootstrap (src/app.ts, src/server.ts). These are I/O and wiring.
- The GraphQL layer (src/graphql/GraphQL.ts). Its resolvers only construct a
  `TaskService` and forward their arguments.
- `getAuthService` (src/services/UserService.ts:108-110). It is a getter with no logic.
- How bcrypt salts and hashes, and how jsonwebtoken signs. Both are foreign cryptography
  and appear only as the functions of `Bcrypt` and `Jwt`.
- The seven-day expiry. `ExpiresIn` is passed to `sign`, but `Jwt.Sound()` states that a
  signed token verifies for every `expiresIn`, as if no token ever expired.
  `GenerateToken` and `IssuedTokenIdentifiesRequest` therefore hold only for a
  verification before the token expires. After that, `verify` throws and `VerifyToken` is
  None.
- The `iat` and `exp` claims. jsonwebtoken's decoded payload also carries them; the model's
  `Claims` holds only `userId` and `email`.
- The payload's type. `verifyToken` casts the decoded payload to `{userId, email}`
  unchecked; the model assumes the payload has that shape.
- `async`/`await` scheduling, and the race between the email check and the insert in
  `register`. Each call is one atomic step. Concurrent registrations with the same email
  are therefore not modelled, and `UniqueKeys(users, UserEmail)` holds in the model only because calls do
  not overlap.
- Store failures other than a malformed id and a duplicate `_id` (network errors, for
  example). Nothing models the error these would propagate or wrap, or that
  `getTaskById`/`getUserById` catch and turn into `null`.
- The exact wording of driver errors. `DuplicateKeyError` is only the start of the server's
  message, and `InvalidObjectIdError` is the text of current bson versions.
- The order among tasks created in the same millisecond. MongoDB leaves the order of equal
  sort keys unspecified. `SortNewestFirst` keeps them in natural order, which is a choice
  of the model; `GetAllTasks` promises only the non-increasing order and the permutation.
- `Tasks.TaskService.CreateTask`: the model identifies an ObjectId with its text. The driver
  writes the generated ObjectId into `taskData`, and the spread at
  src/services/TaskService.ts:27 then puts that object, not the string of line 26, into
  the returned task. Both print as the same 24 hex digits.
- `ObjectIds.Parse` follows current bson versions. Older versions also accepted any
  12-character string as raw bytes.
- Fields of documents written by other clients that do not have the types this code
  writes. The only such field modelled is a missing task description.
