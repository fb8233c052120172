/**
 * The gRPC handlers: each passes its request to the service unchanged (only the
 * 32-bit application id is widened to int) and turns the service's (value, error)
 * pair into a response or a status. Marshalling and the listener are not modelled.
 */
module GrpcAuth {
  import opened Wrappers
  import opened GoErrors
  import opened Bcrypt
  import opened Jwt
  import opened AuthService
  import Models
  import Storage

  /** The gRPC status codes the handlers produce. */
  datatype Code = InvalidArgument | NotFound | AlreadyExists | Internal

  /** A status message: the text of the service error, or a fixed text that hides it. */
  datatype Message = ErrorText(e: Error) | Fixed(text: string)

  datatype Status = Status(code: Code, message: Message)

  type Int32 = x: int | -0x8000_0000 <= x < 0x8000_0000
  type Int64 = x: int | -0x8000_0000_0000_0000 <= x < 0x8000_0000_0000_0000

  datatype LoginRequest = LoginRequest(email: string, password: string, appId: Int32)
  datatype LoginResponse = LoginResponse(token: Token)
  datatype RegisterRequest = RegisterRequest(email: string, password: string)
  datatype RegisterResponse = RegisterResponse(userId: int)
  datatype IsAdminRequest = IsAdminRequest(userId: Int64)
  datatype IsAdminResponse = IsAdminResponse(isAdmin: bool)

  /** A handler's (*Response, error) pair; None stands for nil. */
  datatype Reply<R> = Reply(resp: Option<R>, err: Option<Status>)

  /** An error that carries none of the sentinels: a database or primitive failure. */
  predicate Foreign(e: Error)
  {
    forall k :: !Is(e, k)
  }

  /** The Login handler's translation of the service result. */
  function LoginReply(r: Ret<Token>): (reply: Reply<LoginResponse>)
    ensures reply.resp.Some? != reply.err.Some?
    ensures reply.resp.Some? <==> r.err.None?
    ensures reply.resp.Some? ==> reply.resp.value.token == r.value
    ensures reply.err.Some? ==>
      (reply.err.value.code == InvalidArgument <==> Is(r.err.value, ErrInvalidCredentials)) &&
      (reply.err.value.code == InvalidArgument || reply.err.value == Status(Internal, Fixed("internal error"))) &&
      (reply.err.value.code == InvalidArgument ==> reply.err.value.message == ErrorText(r.err.value))
  {
    match r.err
    case None => Reply(Some(LoginResponse(r.value)), None)
    case Some(err) =>
      if Is(err, ErrInvalidCredentials) then Reply(None, Some(Status(InvalidArgument, ErrorText(err))))
      else Reply(None, Some(Status(Internal, Fixed("internal error"))))
  }

  /** The Register handler's translation of the service result. */
  function RegisterReply(uid: int, err: Option<Error>): (reply: Reply<RegisterResponse>)
    ensures reply.resp.Some? != reply.err.Some?
    ensures reply.resp.Some? <==> err.None?
    ensures reply.resp.Some? ==> reply.resp.value.userId == uid
    ensures reply.err.Some? ==>
      (reply.err.value.code == AlreadyExists <==> Is(err.value, ErrEmailAlreadyExists)) &&
      (reply.err.value.code == AlreadyExists || reply.err.value == Status(Internal, Fixed("interanl error"))) &&
      (reply.err.value.code == AlreadyExists ==> reply.err.value.message == ErrorText(err.value))
  {
    match err
    case None => Reply(Some(RegisterResponse(uid)), None)
    case Some(e) =>
      if Is(e, ErrEmailAlreadyExists) then Reply(None, Some(Status(AlreadyExists, ErrorText(e))))
      else Reply(None, Some(Status(Internal, Fixed("interanl error"))))
  }

  /** The IsAdmin handler's translation of the service result; both codes carry the error text. */
  function IsAdminReply(r: Ret<bool>): (reply: Reply<IsAdminResponse>)
    ensures reply.resp.Some? != reply.err.Some?
    ensures reply.resp.Some? <==> r.err.None?
    ensures reply.resp.Some? ==> reply.resp.value.isAdmin == r.value
    ensures reply.err.Some? ==>
      (reply.err.value.code == NotFound <==> Is(r.err.value, ErrUserNotFound)) &&
      (reply.err.value.code == NotFound || reply.err.value.code == Internal) &&
      reply.err.value.message == ErrorText(r.err.value)
  {
    match r.err
    case None => Reply(Some(IsAdminResponse(r.value)), None)
    case Some(err) =>
      if Is(err, ErrUserNotFound) then Reply(None, Some(Status(NotFound, ErrorText(err))))
      else Reply(None, Some(Status(Internal, ErrorText(err))))
  }

  /** serverAPI.Login, end to end through the service. */
  function HandleLogin(auth: Auth, req: LoginRequest, now: int, signErr: Option<Error>): (reply: Reply<LoginResponse>)
    reads auth.store
    ensures reply.resp.Some? != reply.err.Some?
    // an email the store cannot return
    ensures auth.store.User(req.email).Failure? ==>
      reply.err.Some? && reply.err.value.code == InvalidArgument
    // a wrong password, an application that cannot be returned, a signing failure
    ensures auth.store.User(req.email).Success? && reply.err.Some? ==>
      reply.err.value == Status(Internal, Fixed("internal error"))
    ensures reply.resp.Some? <==>
      Authenticates(auth.store, req.email, req.password) && auth.store.App(req.appId).Success? && signErr.None?
    ensures reply.resp.Some? ==>
      var user, t := auth.store.User(req.email).value, reply.resp.value.token;
      t.Signed? && var c := t.claims;
      c.uid == user.id && c.email == req.email &&
      c.exp * NanosPerSecond <= now + auth.tokenTTL < (c.exp + 1) * NanosPerSecond &&
      (auth.store.Valid() ==> c.appId == req.appId && t.secret == auth.store.apps[req.appId].secret)
  {
    LoginReply(auth.Login(req.email, req.password, req.appId, now, signErr))
  }

  /** serverAPI.IsAdmin, end to end through the service. */
  function HandleIsAdmin(auth: Auth, req: IsAdminRequest): (reply: Reply<IsAdminResponse>)
    reads auth.store
    requires auth.store.Valid()
    ensures reply.resp.Some? != reply.err.Some?
    ensures reply.resp.Some? ==>
      exists u :: u in auth.store.rows && u.id == req.userId && u.isAdmin == reply.resp.value.isAdmin
    // an id no user has, with the store working
    ensures Storage.IsAdminOp !in auth.store.faults && !(exists u :: u in auth.store.rows && u.id == req.userId) ==>
      reply.err.Some? && reply.err.value.code == NotFound
    // a database failure: Internal, and the client sees the failure's text
    ensures Storage.IsAdminOp in auth.store.faults && Foreign(auth.store.faults[Storage.IsAdminOp]) ==>
      reply.err.Some? && reply.err.value.code == Internal &&
      reply.err.value.message == ErrorText(Wrapped(IsAdminFn, auth.store.faults[Storage.IsAdminOp]))
  {
    IsAdminReply(auth.IsAdmin(req.userId))
  }

  /** serverAPI.Register, end to end through the service. */
  method HandleRegister(auth: Auth, req: RegisterRequest, salt: Result<Salt, Error>) returns (reply: Reply<RegisterResponse>)
    requires auth.store.Valid()
    modifies auth.store`rows
    ensures auth.store.Valid()
    ensures reply.resp.Some? != reply.err.Some?
    ensures reply.err.Some? ==> auth.store.rows == old(auth.store.rows)
    // a password bcrypt refuses or a failing random source
    ensures GenerateFromPassword(req.password, salt).Failure? && Foreign(GenerateFromPassword(req.password, salt).error) ==>
      reply.err == Some(Status(Internal, Fixed("interanl error")))
    // an email already registered
    ensures GenerateFromPassword(req.password, salt).Success? && Storage.SaveUserOp !in auth.store.faults &&
            Storage.HasEmail(old(auth.store.rows), req.email) ==>
      reply.err.Some? && reply.err.value.code == AlreadyExists
    // a database failure
    ensures GenerateFromPassword(req.password, salt).Success? && Storage.SaveUserOp in auth.store.faults &&
            Foreign(auth.store.faults[Storage.SaveUserOp]) ==>
      reply.err == Some(Status(Internal, Fixed("interanl error")))
    // a new email: the response carries the id of the new row
    ensures GenerateFromPassword(req.password, salt).Success? && Storage.SaveUserOp !in auth.store.faults &&
            !Storage.HasEmail(old(auth.store.rows), req.email) ==>
      reply.resp == Some(RegisterResponse(|old(auth.store.rows)| + 1)) &&
      auth.store.rows == old(auth.store.rows) +
        [Models.User(|old(auth.store.rows)| + 1, req.email, GenerateFromPassword(req.password, salt).value, false)]
  {
    var uid, err := auth.Register(req.email, req.password, salt);
    reply := RegisterReply(uid, err);
  }

  /**
   * A new account registered through the Register handler can log in through the
   * Login handler: the token names the id Register returned, the email, the requested
   * application and an expiry tokenTTL after the login instant, and the account is
   * not an administrator.
   */
  method RegisterThenLogin(auth: Auth, email: string, password: string, salt: Salt, appId: Int32, now: int)
    returns (registered: Reply<RegisterResponse>, login: Reply<LoginResponse>, admin: Reply<IsAdminResponse>)
    requires auth.store.Valid() && auth.store.faults == map[]
    requires !Storage.HasEmail(auth.store.rows, email) && appId in auth.store.apps
    requires Utf8Length(password) <= MaxPasswordBytes
    requires |auth.store.rows| < 0x7FFF_FFFF_FFFF_FFFF
    modifies auth.store`rows
    ensures registered.resp.Some? && login.resp.Some? && admin.resp == Some(IsAdminResponse(false))
    ensures registered.resp.value.userId != 0
    ensures login.resp.value.token.Signed? && login.resp.value.token.secret == auth.store.apps[appId].secret
    ensures var c := login.resp.value.token.claims;
      c.uid == registered.resp.value.userId && c.email == email && c.appId == appId &&
      c.exp * NanosPerSecond <= now + auth.tokenTTL < (c.exp + 1) * NanosPerSecond
  {
    registered := HandleRegister(auth, RegisterRequest(email, password), Success(salt));
    var uid := registered.resp.value.userId;
    ghost var rows := auth.store.rows;
    assert rows[uid - 1].email == email;
    assert Storage.HasEmail(rows, email);
    var user := auth.store.User(email).value;
    assert user == rows[uid - 1] by {
      var i :| 0 <= i < |rows| && rows[i] == user;
      assert rows[i].email == rows[uid - 1].email;
    }
    assert Authenticates(auth.store, email, password);
    login := HandleLogin(auth, LoginRequest(email, password, appId), now, None);
    admin := HandleIsAdmin(auth, IsAdminRequest(uid));
  }

  /**
   * Through the handlers, an unknown email and a wrong password for a known email
   * come back with different status codes, so a client can tell whether an account
   * exists.
   */
  lemma LoginCodeRevealsAccountExistence(auth: Auth, known: string, unknown: string, password: string,
                                         appId: Int32, now: int, signErr: Option<Error>)
    requires auth.store.User(unknown).Failure?
    requires auth.store.User(known).Success? && !Authenticates(auth.store, known, password)
    ensures HandleLogin(auth, LoginRequest(unknown, password, appId), now, signErr).err.value.code == InvalidArgument
    ensures HandleLogin(auth, LoginRequest(known, password, appId), now, signErr).err.value.code == Internal
  {
  }

  /**
   * Once an account holds the hash of password p, logging in with any other NUL-free
   * password of at most 72 bytes is refused, and the client sees Internal.
   */
  lemma LoginWithOtherPasswordFails(auth: Auth, email: string, p: string, q: string, salt: Salt,
                                    appId: Int32, now: int, signErr: Option<Error>)
    requires Utf8Length(p) <= MaxPasswordBytes && Utf8Length(q) <= MaxPasswordBytes && p != q
    requires '\0' !in p && '\0' !in q
    requires auth.store.User(email).Success?
    requires auth.store.User(email).value.passHash == GenerateFromPassword(p, Success(salt)).value
    ensures HandleLogin(auth, LoginRequest(email, q, appId), now, signErr).err ==
            Some(Status(Internal, Fixed("internal error")))
  {
    CompareRejectsOtherPassword(p, q, salt);
  }
}
