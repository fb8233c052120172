# grpcAuth authentication service — a Dafny model

This project models the authentication domain service of the grpcAuth server. The
service `Auth` (interanl/services/auth/auth.go) offers three operations:

- `Register` hashes a password and saves a new user.
- `Login` checks an email and password and issues a token for a calling application.
- `IsAdmin` reports a user's admin flag.

Each operation runs a fixed sequence of calls against three storage ports (`UserSaver`,
`UserProveder`, `AppProvider`). Each port failure is translated into a small error
vocabulary. The model also covers the gRPC handlers (interanl/grpc/auth/server.go),
which map that vocabulary to gRPC status codes.

Files and modules:

- `wrappers.dfy` (`Wrappers`): `Option` and `Result`.
- `errors.dfy` (`GoErrors`): Go error values. An error is a sentinel, a `%w` wrapper
  (`Wrapped`), an error formatted from another without wrapping it (`Formatted`), or an
  opaque error. `Is` is `errors.Is` and `Chain` is the unwrap chain it walks.
- `bcrypt.dfy` (`Bcrypt`): a stand-in for bcrypt. Hashing takes the random salt as a
  parameter and refuses passwords over 72 UTF-8 bytes. Comparison recomputes the digest
  with the cost and salt stored in the hash. As in bcrypt, the digest depends on the
  password only through its key stream: the password's UTF-8 bytes plus one NUL byte,
  read cyclically for 72 bytes. So bytes past the 72nd are ignored, and a password
  containing NUL can be equivalent to another one ("a" and "a\0a").
- `jwt.dfy` (`Jwt`): the token as claims `uid`, `email`, `app_id` and `exp`, plus the
  secret it is signed with. `exp` is the login instant plus the token lifetime, in Unix
  seconds.
- `storage.dfy` (`Models`, `Storage`): the user and app records, and one in-memory
  `Store` that serves all three ports. Users are rows with ids 1, 2, … and unique
  emails. Apps are keyed by id. Per port operation, `faults` can hold a failure the
  database reports instead of answering.
- `auth.dfy` (`AuthService`): the class `Auth` with its constructor, `Login`, `Register`
  and `IsAdmin`, plus lemmas about which steps decide Login's answer.
- `server.dfy` (`GrpcAuth`): the three handlers. Each is modelled as a translation of
  the service result, and also end to end through the service. A client runs
  register, then login, as in the happy-path test. It then runs an admin check, which
  the test does not do. The admin check succeeds on the in-memory store; with the SQLite
  adapter it would fail (sqlite.go:79-86).

`Login` and `IsAdmin` only read. They are functions that read the store, so they cannot
change it, and two calls on the same store give the same answer. `Register` is a method
whose only effect is one appended row.

In four places the code does something other than what the service is evidently meant
to do. The model follows the code:

- Wrong password. The service is meant to hide whether the email or the password was
  wrong, with one invalid-credentials error for both. The code returns bcrypt's
  mismatch error, wrapped (auth.go:78). So the Login handler answers `Internal` for a
  wrong password and `InvalidArgument` for an unknown email.
  `Auth.Login` and `GrpcAuth.LoginCodeRevealsAccountExistence` state this.
- Unknown application. An unknown application would naturally be a not-found error
  for the client. The handler answers `Internal` (server.go:33-38).
- Signing failure. At auth.go:94, `fmt.Errorf("%s: %w", err)` has no operand for `%w`.
  The resulting error wraps nothing, so `errors.Is` finds no kind in it. It is modelled
  as written (`Formatted`), and `GoErrors.FormattedIsOpaque` states what it loses.
- IsAdmin failures. Register and Login hide internal failures behind a fixed message.
  The IsAdmin handler sends the error's own text with `Internal` (server.go:66).

## Model

| member | source | states |
|---|---|---|
| `GoErrors.IsIffInChain` | interanl/services/auth/auth.go:66 | `errors.Is(e, k)` holds exactly when sentinel `k` occurs in the unwrap chain of `e` |
| `GoErrors.WrapAllPreservesIs` | interanl/services/auth/auth.go:125 | wrapping with `%w` any number of times (storage layer, then service) keeps every kind `errors.Is` sees, and adds none |
| `GoErrors.WrappedSentinelKinds` | interanl/services/auth/auth.go:68 | `fmt.Errorf("%s: %w", fn, sentinel)` is recognised as that sentinel and no other |
| `GoErrors.FormattedIsOpaque` | interanl/services/auth/auth.go:94 | the signing-failure error, formatted without an operand for `%w`, is recognised as no sentinel at all |
| `Bcrypt.GenerateFromPassword` | interanl/services/auth/auth.go:109-114 | hashing succeeds iff the password is at most 72 bytes and the salt source works; it then uses the default cost and the drawn salt, and the hash verifies against the password; a salt-source error is passed through |
| `Bcrypt.CompareHashAndPassword` | interanl/services/auth/auth.go:76 | no error iff the stored cost is in bcrypt's range 4..31 and the password hashes, under the stored cost and salt, to the stored digest; with a valid cost, any error is exactly bcrypt's mismatch error; with an invalid cost, an error that carries no sentinel |
| `Bcrypt.Utf8Injective` | interanl/services/auth/auth.go:75 | the bytes `[]byte(password)` determine the password: UTF-8 encoding is injective |
| `Bcrypt.KeyStreamDecodes` | interanl/services/auth/auth.go:75-76 | for a NUL-free password of at most 72 bytes, the 72-byte cyclic key stream gives the password back (it ends at the stream's first NUL) |
| `Bcrypt.DigestInjective` | interanl/services/auth/auth.go:76 | under one cost and salt, equal digests come only from equal passwords, for NUL-free passwords of at most 72 bytes |
| `Bcrypt.KeyCycleTwins` | interanl/services/auth/auth.go:76 | "a" and "a\0a" have the same digest under every cost and salt, because their key streams coincide |
| `Bcrypt.CompareAcceptsKeyCycleTwin` | interanl/services/auth/auth.go:76 | a hash made from "a" accepts the login password "a\0a" |
| `Bcrypt.CompareIgnoresBytesPast72` | interanl/services/auth/auth.go:76 | two passwords whose first 72 bytes agree get the same answer against every hash |
| `Bcrypt.CompareRejectsOtherPassword` | interanl/services/auth/auth.go:76 | a hash made from password p refuses every other NUL-free password of at most 72 bytes with bcrypt's mismatch error |
| `Jwt.NewToken` | interanl/services/auth/auth.go:89-95 | fails iff the signer fails, with the signer's error; otherwise a token signed with the app's secret whose claims are the user id, email and app id given, with `exp` the whole second in which now + ttl falls |
| `Storage.Store.SaveUser` | interanl/services/auth/auth.go:25-27 | port contract: an injected failure is returned as is; a taken email gives an error `errors.Is` recognises as already-exists; otherwise one row with the next id, the email, the hash and no admin flag is appended; the table invariant is kept |
| `Storage.Store.User` | interanl/services/auth/auth.go:29-30 | port contract: an injected failure as is; otherwise a user is returned iff one has that email, and a miss is recognised as user-not-found |
| `Storage.Store.IsAdmin` | interanl/services/auth/auth.go:31 | port contract: an injected failure as is; otherwise the flag of the user with that id, if some user has it, else an error recognised as user-not-found |
| `Storage.Store.App` | interanl/services/auth/auth.go:34-36 | port contract: an injected failure as is; otherwise the stored app iff the id is present, a miss recognised as app-not-found |
| `Storage.FindByEmail` | interanl/services/auth/auth.go:64 | the lookup by email finds a row holding that email, and finds none exactly when no row holds it |
| `AuthService.Auth.constructor` | interanl/services/auth/auth.go:38-52 | `New` keeps the token lifetime and the storage it is given |
| `AuthService.Auth.Login` | interanl/services/auth/auth.go:54-98 | the empty token comes back exactly when there is an error; a user that cannot be returned (not found or any other failure) gives only ErrInvalidCredentials; a password mismatch gives bcrypt's mismatch error, not ErrInvalidCredentials; a stored hash with an invalid cost gives bcrypt's error with no sentinel; an app that cannot be returned gives only the storage app-not-found kind; a signing failure gives an error with no kind; success happens iff all four steps pass, and the token then carries the looked-up user's id, the email, the looked-up app's id and secret, and expires tokenTTL after now |
| `AuthService.Auth.Register` | interanl/services/auth/auth.go:100-130 | uid is 0 exactly on error, and an error leaves the store unchanged; a hashing failure is propagated and nothing is saved; a taken email gives only ErrEmailAlreadyExists; any other save failure is propagated with its kinds; on success exactly one row is appended, with the storage-assigned id returned unchanged and a hash (not the password) that verifies against the password |
| `AuthService.Auth.IsAdmin` | interanl/services/auth/auth.go:132-154 | on success the store's flag for that id, unchanged; a not-found store error gives only ErrUserNotFound; any other failure is propagated with its kinds; on error the flag is false |
| `AuthService.LoginStopsAtUserLookup` | interanl/services/auth/auth.go:64-74 | once the user lookup fails, Login's answer is the same whatever the cause, the password, the app, the clock and the signer |
| `AuthService.LoginStopsAtPasswordCheck` | interanl/services/auth/auth.go:76-79 | once the password does not match, Login's answer does not depend on the apps table, the requested app, the clock or the signer: the app provider is not consulted |
| `AuthService.LoginStopsAtAppLookup` | interanl/services/auth/auth.go:81-85 | once the app lookup fails, for any reason, Login's answer does not depend on the clock or the signer: no token is issued |
| `AuthService.IsAdminStableUnderInsert` | interanl/services/auth/auth.go:141-153 | appending a user, the only change Register makes, leaves IsAdmin's answer (flag or error) for every user that already existed as it was |
| `GrpcAuth.LoginReply` | interanl/grpc/auth/server.go:33-42 | exactly one of response and error; the response carries the token unchanged; the code is InvalidArgument iff the error is recognised as ErrInvalidCredentials, otherwise Internal with the fixed text "internal error"; InvalidArgument carries the error's own text |
| `GrpcAuth.RegisterReply` | interanl/grpc/auth/server.go:48-56 | exactly one of response and error; the response carries the user id unchanged; AlreadyExists iff the error is recognised as ErrEmailAlreadyExists, otherwise Internal with the fixed text "interanl error"; AlreadyExists carries the error's own text |
| `GrpcAuth.IsAdminReply` | interanl/grpc/auth/server.go:62-70 | exactly one of response and error; the response carries the flag unchanged; NotFound iff the error is recognised as ErrUserNotFound, otherwise Internal; both carry the error's own text |
| `GrpcAuth.HandleLogin` | interanl/grpc/auth/server.go:28-43 | end to end: an email the store cannot return gives InvalidArgument; a known email with a wrong password, an unavailable app or a signing failure gives Internal; a token is returned iff all steps pass, naming the user's id, the request's email and app id, expiring tokenTTL after now, and signed with that app's secret |
| `GrpcAuth.HandleRegister` | interanl/grpc/auth/server.go:45-57 | end to end: a refused password or a failing database gives Internal; a taken email gives AlreadyExists; a new email gives the id of the one appended row |
| `GrpcAuth.HandleIsAdmin` | interanl/grpc/auth/server.go:59-71 | end to end: a returned flag is that of the user with the requested id; an unknown id gives NotFound; a database failure gives Internal and the client sees the failure's text |
| `GrpcAuth.LoginCodeRevealsAccountExistence` | interanl/grpc/auth/server.go:33-38 | an unknown email and a wrong password for a known email give different status codes (InvalidArgument and Internal) |
| `GrpcAuth.LoginWithOtherPasswordFails` | interanl/services/auth/auth.go:76-79 | once an account holds the hash of password p, a login with any other NUL-free password of at most 72 bytes is refused, and the client sees Internal with the fixed text |
| `GrpcAuth.RegisterThenLogin` | tests/auth_login_register_test.go:22-62 | register, then login with the same credentials, on a working store: both succeed; the returned user id is not 0; the token is signed with the requested app's secret, names the id Register returned, the email and the requested app, and expires tokenTTL after the login instant. Two parts are not in the test: the admin check after login, and the statement that the new user is not an admin. Both hold on the in-memory store |

## Left out

- Logging through `slog`: it has no effect on control flow.
- `context.Context` cancellation and deadlines: no operation observes them here.
- `time.Now`: the login instant is a parameter, in Unix nanoseconds.
- The SQLite adapter (interanl/storage/sqlite/sqlite.go) is not part of this model; the
  in-memory `Store` takes its place. Two of its defects are not reproduced. SaveUser
  continues after a non-unique insert error and reads `LastInsertId` of a nil result
  (sqlite.go:39-48). IsAdmin scans `SELECT *` into a single bool (sqlite.go:79-86).
  Database failures of any kind are instead injected through `faults`.
- The storage package's sentinels (interanl/storage) are not part of this model. They
  are taken to be three distinct errors, and their texts are not modelled.
- Error texts in general: a status message is modelled as "the error's text" or as a
  fixed string, not as rendered characters.
- bcrypt's cryptography: bcrypt is modelled as an abstract hash/verify pair over the
  72-byte key stream, and the digest is a placeholder that is not one-way.
- `Bcrypt.DigestInjective`: the placeholder digest is injective in the key stream, where
  Blowfish is only collision-resistant; the lemma idealises that resistance.
- `Bcrypt.CompareHashAndPassword`: a stored hash is a record of cost, salt and digest,
  not bytes. Of bcrypt's parse failures, only an out-of-range cost is modelled. A hash
  that is too short or has a wrong version prefix cannot be represented.
- Token signing and encoding: the token package (interanl/lib/jwt) is not part of this
  model. A token is its claims plus the secret it is signed with. That a token does not
  verify under another application's secret is a cryptographic property and is not
  stated. Whether signing fails is a parameter.
- Integer widths: user ids, app ids, durations and instants are unbounded integers. The
  request types keep the proto widths (`int32` app id, `int64` user id). Go's
  saturation of `time.Add` on overflow is not modelled.
- Process bootstrap, configuration, the gRPC listener and request marshalling
  (interanl/app, cmd/grpcAuth, interanl/config) are outside the modelled core.
- The `Auth` interface in server.go: the handlers call the one `Auth` class directly.
