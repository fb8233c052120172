/**
 * Go's error values as far as the service uses them: sentinel errors created with
 * errors.New, errors wrapped with fmt.Errorf("%s: %w", ...), and errors.Is, which
 * walks the chain of wrapped errors looking for a sentinel.
 */
module GoErrors {
  import opened Wrappers

  /** The sentinel errors the service and its collaborators compare against. */
  datatype Sentinel =
    // package services
    | ErrInvalidCredentials   // "login or password is incorrect"
    | ErrUserNotFound         // "user not found"
    | ErrEmailAlreadyExists   // "user already exists"
    // package storage
    | StorageUserNotFound
    | StorageUserAlreadyExists
    | StorageAppNotFound
    // package bcrypt
    | BcryptMismatchedHashAndPassword

  /** An error value: a sentinel, a wrapper made by %w, or an error that wraps nothing. */
  datatype Error =
    | Sentinel(kind: Sentinel)
      /** fmt.Errorf("%s: %w", context, inner) */
    | Wrapped(context: string, inner: Error)
      /** an error whose text was formatted from another error but that does not wrap it */
    | Formatted(from: Error)
      /** any other error (driver, random source, hashing limits) */
    | Opaque(text: string)

  /** errors.Unwrap: the error directly wrapped by e, if any. */
  function Unwrap(e: Error): (u: Option<Error>)
    ensures u.Some? <==> e.Wrapped?
    ensures u.Some? ==> u.value < e
  {
    match e
    case Wrapped(_, inner) => Some(inner)
    case _ => None
  }

  /** errors.Is: does e or any error it wraps, directly or not, equal the sentinel? */
  predicate Is(e: Error, k: Sentinel)
    decreases e
  {
    e == Sentinel(k) || (Unwrap(e).Some? && Is(Unwrap(e).value, k))
  }

  /** The chain errors.Is inspects: e, Unwrap(e), Unwrap(Unwrap(e)), ... */
  function Chain(e: Error): (c: seq<Error>)
    ensures |c| >= 1 && c[0] == e
    ensures forall i :: 0 <= i < |c| - 1 ==> Unwrap(c[i]) == Some(c[i + 1])
    ensures Unwrap(c[|c| - 1]) == None
  {
    match Unwrap(e)
    case None => [e]
    case Some(inner) => [e] + Chain(inner)
  }

  /** errors.Is agrees with a search of the unwrap chain. */
  lemma {:induction false} IsIffInChain(e: Error, k: Sentinel)
    ensures Is(e, k) <==> Sentinel(k) in Chain(e)
  {
    match Unwrap(e)
    case None =>
    case Some(inner) =>
      IsIffInChain(inner, k);
      assert Chain(e) == [e] + Chain(inner);
  }

  /** The error obtained by wrapping e with each context in turn, innermost first. */
  function WrapAll(contexts: seq<string>, e: Error): (w: Error)
    ensures |Chain(w)| == |contexts| + |Chain(e)|
  {
    if contexts == [] then e else Wrapped(contexts[|contexts| - 1], WrapAll(contexts[..|contexts| - 1], e))
  }

  /** Wrapping with %w, any number of times, keeps every kind errors.Is can see. */
  lemma {:induction false} WrapAllPreservesIs(contexts: seq<string>, e: Error, k: Sentinel)
    ensures Is(WrapAll(contexts, e), k) <==> Is(e, k)
  {
    if contexts != [] {
      WrapAllPreservesIs(contexts[..|contexts| - 1], e, k);
    }
  }

  /** An error formatted from another without %w hides every kind the other had. */
  lemma FormattedIsOpaque(e: Error, k: Sentinel)
    ensures !Is(Formatted(e), k)
  {
  }

  /** A wrapped sentinel is recognised as exactly that sentinel and no other. */
  lemma WrappedSentinelKinds(context: string, s: Sentinel, k: Sentinel)
    ensures Is(Wrapped(context, Sentinel(s)), k) <==> k == s
  {
  }
}
