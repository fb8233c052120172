/**
 * The authentication domain service: Register, Login and IsAdmin, run as a fixed
 * sequence of calls to the storage ports, with each port failure translated into
 * the service's error vocabulary. Logging is not modelled; the clock (`now`), the
 * random salt and the token signer's outcome are parameters.
 */
module AuthService {
  import opened Wrappers
  import opened GoErrors
  import opened Bcrypt
  import opened Jwt
  import Models
  import Storage

  const LoginFn := "auth.Login"
  const RegisterFn := "auth.RegiserNewUser"
  const IsAdminFn := "auth.IsAdmin"

  /** A Go result pair (value, error); on failure the value is the zero value. */
  datatype Ret<T> = Ret(value: T, err: Option<Error>)

  /** errors.Is recognises e as the sentinel k and as no other sentinel. */
  predicate OnlyKind(e: Error, k: Sentinel)
  {
    forall k' :: Is(e, k') <==> k' == k
  }

  /** errors.Is sees the same sentinels in e and in f. */
  predicate SameKinds(e: Error, f: Error)
  {
    forall k :: Is(e, k) <==> Is(f, k)
  }

  /** The store returns a user for `email` whose hash matches `password`. */
  predicate Authenticates(store: Storage.Store, email: string, password: string)
    reads store
  {
    store.User(email).Success? && CompareHashAndPassword(store.User(email).value.passHash, password).None?
  }

  class Auth {
    const tokenTTL: int
    /** Serves as userSaver, userProvider and appProvider at once. */
    const store: Storage.Store

    /** New */
    constructor (tokenTTL: int, store: Storage.Store)
      ensures this.tokenTTL == tokenTTL && this.store == store
    {
      this.tokenTTL := tokenTTL;
      this.store := store;
    }

    /**
     * Login: look the user up by email, check the password, look the application
     * up, issue a token. Each failure ends the call with the empty token.
     */
    function Login(email: string, password: string, appId: int, now: int, signErr: Option<Error>): (r: Ret<Token>)
      reads store
      ensures r.err.Some? <==> r.value == Empty
      // 1. the user cannot be returned, for whatever reason
      ensures store.User(email).Failure? ==>
        r.err.Some? && OnlyKind(r.err.value, ErrInvalidCredentials)
      // 2. the password does not match: bcrypt's error, not ErrInvalidCredentials
      ensures store.User(email).Success? && ValidCost(store.User(email).value.passHash.cost) &&
              !Authenticates(store, email, password) ==>
        r.err.Some? && OnlyKind(r.err.value, BcryptMismatchedHashAndPassword)
      //    the stored hash does not parse: bcrypt's error, which carries no sentinel
      ensures store.User(email).Success? && !ValidCost(store.User(email).value.passHash.cost) ==>
        r.err.Some? && forall k :: !Is(r.err.value, k)
      // 3. the application cannot be returned, for whatever reason
      ensures Authenticates(store, email, password) && store.App(appId).Failure? ==>
        r.err.Some? && OnlyKind(r.err.value, StorageAppNotFound)
      // 4. signing fails: an error that wraps nothing
      ensures Authenticates(store, email, password) && store.App(appId).Success? && signErr.Some? ==>
        r.err.Some? && r.err.value == Formatted(signErr.value) && (forall k :: !Is(r.err.value, k))
      ensures r.err.None? <==>
        Authenticates(store, email, password) && store.App(appId).Success? && signErr.None?
      // the token carries the looked-up user, the looked-up app and expires tokenTTL after now
      ensures r.err.None? ==>
        var user, app := store.User(email).value, store.App(appId).value;
        r.value.secret == app.secret &&
        r.value.claims.uid == user.id && r.value.claims.email == email && r.value.claims.appId == app.id &&
        r.value.claims.exp * NanosPerSecond <= now + tokenTTL < (r.value.claims.exp + 1) * NanosPerSecond
    {
      match store.User(email)
      case Failure(err) =>
        // the two branches differ only in what they log
        if Is(err, StorageUserNotFound) then Ret(Empty, Some(Wrapped(LoginFn, Sentinel(ErrInvalidCredentials))))
        else Ret(Empty, Some(Wrapped(LoginFn, Sentinel(ErrInvalidCredentials))))
      case Success(user) =>
        match CompareHashAndPassword(user.passHash, password)
        case Some(err) => Ret(Empty, Some(Wrapped(LoginFn, err)))
        case None =>
          match store.App(appId)
          case Failure(_) => Ret(Empty, Some(Wrapped(LoginFn, Sentinel(StorageAppNotFound))))
          case Success(app) =>
            match NewToken(user.id, user.email, app.id, app.secret, tokenTTL, now, signErr)
            // fmt.Errorf("%s: %w", err) has no operand for %w: the result wraps nothing
            case Failure(err) => Ret(Empty, Some(Formatted(err)))
            case Success(token) => Ret(token, None)
    }

    /** Register: hash the password, save (email, hash), return the new user's id. */
    method Register(email: string, password: string, salt: Result<Salt, Error>) returns (uid: int, err: Option<Error>)
      requires store.Valid()
      modifies store`rows
      ensures store.Valid()
      ensures err.Some? <==> uid == 0
      ensures err.Some? ==> store.rows == old(store.rows)
      // hashing fails: SaveUser is not called and the hashing error is propagated
      ensures GenerateFromPassword(password, salt).Failure? ==>
        err.Some? && SameKinds(err.value, GenerateFromPassword(password, salt).error)
      // the store reports the email as taken
      ensures GenerateFromPassword(password, salt).Success? && Storage.SaveUserOp !in store.faults &&
              Storage.HasEmail(old(store.rows), email) ==>
        err.Some? && OnlyKind(err.value, ErrEmailAlreadyExists)
      // the store fails otherwise: a uniqueness error is translated, any other is propagated
      ensures GenerateFromPassword(password, salt).Success? && Storage.SaveUserOp in store.faults ==>
        var f := store.faults[Storage.SaveUserOp];
        err.Some? &&
        (if Is(f, StorageUserAlreadyExists) then OnlyKind(err.value, ErrEmailAlreadyExists)
         else SameKinds(err.value, f))
      // success: one new row holding a hash that verifies against the password
      ensures GenerateFromPassword(password, salt).Success? && Storage.SaveUserOp !in store.faults &&
              !Storage.HasEmail(old(store.rows), email) ==>
        err.None? && uid == |old(store.rows)| + 1 &&
        store.rows == old(store.rows) + [Models.User(uid, email, GenerateFromPassword(password, salt).value, false)]
      ensures err.None? ==>
        store.rows[uid - 1].id == uid && store.rows[uid - 1].email == email &&
        CompareHashAndPassword(store.rows[uid - 1].passHash, password).None? && !store.rows[uid - 1].isAdmin
    {
      var hashed := GenerateFromPassword(password, salt);
      if hashed.Failure? {
        return 0, Some(Wrapped(RegisterFn, hashed.error));
      }
      var saveErr;
      uid, saveErr := store.SaveUser(email, hashed.value);
      if saveErr.Some? {
        if Is(saveErr.value, StorageUserAlreadyExists) {
          return 0, Some(Wrapped(RegisterFn, Sentinel(ErrEmailAlreadyExists)));
        }
        return 0, Some(Wrapped(RegisterFn, saveErr.value));
      }
      err := None;
    }

    /** IsAdmin: the admin flag of the user with id `userId`. */
    function IsAdmin(userId: int): (r: Ret<bool>)
      reads store
      requires store.Valid()
      ensures r.err.Some? ==> !r.value
      ensures r.err.None? <==> store.IsAdmin(userId).Success?
      ensures r.err.None? ==> exists u :: u in store.rows && u.id == userId && u.isAdmin == r.value
      // the store reports the user as unknown
      ensures store.IsAdmin(userId).Failure? && Is(store.IsAdmin(userId).error, StorageUserNotFound) ==>
        r.err.Some? && OnlyKind(r.err.value, ErrUserNotFound)
      // any other store failure is propagated
      ensures store.IsAdmin(userId).Failure? && !Is(store.IsAdmin(userId).error, StorageUserNotFound) ==>
        r.err.Some? && SameKinds(r.err.value, store.IsAdmin(userId).error)
    {
      match store.IsAdmin(userId)
      case Failure(err) =>
        // the two branches differ only in what they log
        if Is(err, StorageUserNotFound) then Ret(false, Some(Wrapped(IsAdminFn, Sentinel(ErrUserNotFound))))
        else Ret(false, Some(Wrapped(IsAdminFn, err)))
      case Success(isAdmin) => Ret(isAdmin, None)
    }
  }

  /**
   * When the user cannot be returned, Login's answer depends on nothing else: not on
   * why the lookup failed, the password, the application, the clock or the signer.
   */
  lemma LoginStopsAtUserLookup(a: Auth, b: Auth, email: string, p1: string, p2: string, app1: int, app2: int,
                               now1: int, now2: int, s1: Option<Error>, s2: Option<Error>)
    requires a.store.User(email).Failure? && b.store.User(email).Failure?
    ensures a.Login(email, p1, app1, now1, s1) == b.Login(email, p2, app2, now2, s2)
  {
  }

  /**
   * When the password does not match, the application provider and the token issuer
   * are not consulted: the answer is the same whatever the apps table, the requested
   * application, the clock, the token lifetime and the signer.
   */
  lemma LoginStopsAtPasswordCheck(a: Auth, b: Auth, email: string, password: string, app1: int, app2: int,
                                  now1: int, now2: int, s1: Option<Error>, s2: Option<Error>)
    requires a.store.User(email).Success? && a.store.User(email) == b.store.User(email)
    requires !Authenticates(a.store, email, password)
    ensures a.Login(email, password, app1, now1, s1) == b.Login(email, password, app2, now2, s2)
  {
  }

  /**
   * When the application cannot be returned, for whatever reason, the token issuer is
   * not consulted: the answer does not depend on the clock, the lifetime or the signer.
   */
  lemma LoginStopsAtAppLookup(a: Auth, b: Auth, email: string, password: string, appId: int,
                              now1: int, now2: int, s1: Option<Error>, s2: Option<Error>)
    requires a.store.User(email) == b.store.User(email) && Authenticates(a.store, email, password)
    requires a.store.App(appId).Failure? && b.store.App(appId).Failure?
    ensures a.Login(email, password, appId, now1, s1) == b.Login(email, password, appId, now2, s2)
  {
  }

  /**
   * IsAdmin reads the store and nothing else, so a later insert of another user (the
   * only change Register makes) leaves every answer about an existing user as it was.
   */
  lemma IsAdminStableUnderInsert(a: Auth, b: Auth, userId: int, u: Models.User)
    requires a.store.Valid() && b.store.Valid()
    requires b.store.rows == a.store.rows + [u] && b.store.faults == a.store.faults
    requires exists v :: v in a.store.rows && v.id == userId
    ensures b.IsAdmin(userId) == a.IsAdmin(userId)
  {
  }
}
