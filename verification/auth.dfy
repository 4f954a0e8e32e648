/** The authentication middleware: a bearer token in the Authorization
    header is verified and resolved to a user before a protected handler
    runs. Token verification (signature and expiry checks) is a parameter. */
module Auth {
  import opened Base
  import opened Text
  import opened Accounts

  const BearerPrefix: string := "Bearer "

  /** What verifying a token yields: its payload's `id` claim (absent when
      the payload has none), or the verifier's failure kind. */
  datatype Verdict =
    | Decoded(id: Option<string>)
    | Malformed      // signature, format or secret mismatch
    | Expired        // past the `exp` claim
    | NotYetValid    // before the `nbf` claim

  datatype AuthError = NoToken | InvalidToken | TokenExpired | UserNotFound | ServerError
  {
    function Status(): int {
      if ServerError? then 500 else 401
    }

    function Message(): string {
      match this
      case NoToken => "No token, authorization denied"
      case InvalidToken => "Invalid token"
      case TokenExpired => "Token expired"
      case UserNotFound => "User not found"
      case ServerError => "Server error"
    }
  }

  /** Either the request proceeds with the authenticated user attached, or
      it is answered with an error. */
  datatype Outcome = Proceed(userId: Id, user: User) | Denied(error: AuthError)

  /** The header carries a bearer token: it starts with "Bearer " exactly
      (case and the single space matter). */
  predicate HasBearer(header: Option<string>) {
    header.Some? && StartsWith(header.value, BearerPrefix)
  }

  /** The token of a bearer header: the first "Bearer " removed, which, as
      the header starts with it, is the prefix. */
  function TokenOf(header: string): (t: string)
    requires StartsWith(header, BearerPrefix)
    ensures header == BearerPrefix + t
  {
    var t := ReplaceFirst(header, BearerPrefix, "");
    assert header == header[..|BearerPrefix|] + header[|BearerPrefix|..];
    t
  }

  /** The verdict on the token of a bearer header. */
  function VerdictOf(header: Option<string>, verify: string -> Verdict): Verdict
    requires HasBearer(header)
  {
    verify(TokenOf(header.value))
  }

  /** The middleware. A decoded id that does not cast to an ObjectId makes
      the user lookup throw, which ends in the generic 500; a castable id is
      looked up by its canonical spelling; a lookup with no id, or one that
      finds no user, is "User not found". */
  function Authenticate(lib: Library, header: Option<string>, verify: string -> Verdict, users: Users): (r: Outcome)
    ensures !HasBearer(header) ==> r == Denied(NoToken)
    ensures r.Proceed? <==>
      HasBearer(header) && VerdictOf(header, verify).Decoded? && VerdictOf(header, verify).id.Some?
      && lib.castsToObjectId(VerdictOf(header, verify).id.value)
      && lib.canonicalId(VerdictOf(header, verify).id.value) in users
    ensures r.Proceed? ==>
      && VerdictOf(header, verify).Decoded? && VerdictOf(header, verify).id.Some?
      && r.userId == lib.canonicalId(VerdictOf(header, verify).id.value)
      && r.userId in users && r.user == users[r.userId]
    ensures r == Denied(InvalidToken) <==> HasBearer(header) && VerdictOf(header, verify).Malformed?
    ensures r == Denied(TokenExpired) <==> HasBearer(header) && VerdictOf(header, verify).Expired?
    ensures r == Denied(UserNotFound) <==>
      HasBearer(header) && VerdictOf(header, verify).Decoded? &&
      (VerdictOf(header, verify).id.None? ||
       (lib.castsToObjectId(VerdictOf(header, verify).id.value)
        && lib.canonicalId(VerdictOf(header, verify).id.value) !in users))
    ensures r == Denied(ServerError) <==>
      HasBearer(header) &&
      (VerdictOf(header, verify).NotYetValid? ||
       (VerdictOf(header, verify).Decoded? && VerdictOf(header, verify).id.Some? &&
        !lib.castsToObjectId(VerdictOf(header, verify).id.value)))
  {
    if !HasBearer(header) then Denied(NoToken)
    else
      match VerdictOf(header, verify)
      case Malformed => Denied(InvalidToken)
      case Expired => Denied(TokenExpired)
      case NotYetValid => Denied(ServerError)
      case Decoded(None) => Denied(UserNotFound)
      case Decoded(Some(id)) =>
        if !lib.castsToObjectId(id) then Denied(ServerError)
        else if lib.canonicalId(id) in users then Proceed(lib.canonicalId(id), users[lib.canonicalId(id)])
        else Denied(UserNotFound)
  }

  /** Building a bearer header from a token and extracting it again gives
      the token back, whatever the token contains. */
  lemma TokenRoundTrip(t: string)
    ensures StartsWith(BearerPrefix + t, BearerPrefix)
    ensures TokenOf(BearerPrefix + t) == t
  {
    assert (BearerPrefix + t)[..|BearerPrefix|] == BearerPrefix;
  }

  /** A request without a bearer header is refused before the token is
      verified or a user is looked up: the outcome does not depend on the
      verifier or on the users. */
  lemma NoBearerIgnoresVerifierAndUsers(lib: Library, header: Option<string>,
                                        verify: string -> Verdict, verify': string -> Verdict,
                                        users: Users, users': Users)
    requires !HasBearer(header)
    ensures Authenticate(lib, header, verify, users) == Authenticate(lib, header, verify', users')
    ensures Authenticate(lib, header, verify, users).error.Status() == 401
  {
  }

  /** A token the verifier accepts for an existing user lets the request
      through with exactly that user. */
  lemma ValidTokenProceeds(lib: Library, t: string, verify: string -> Verdict, users: Users, uid: string)
    requires verify(t) == Decoded(Some(uid)) && lib.castsToObjectId(uid) && lib.canonicalId(uid) in users
    ensures Authenticate(lib, Some(BearerPrefix + t), verify, users)
      == Proceed(lib.canonicalId(uid), users[lib.canonicalId(uid)])
  {
    TokenRoundTrip(t);
  }

  /** Every refusal answers 401, except the generic server error. */
  lemma DeniedStatus(lib: Library, header: Option<string>, verify: string -> Verdict, users: Users)
    requires Authenticate(lib, header, verify, users).Denied?
    ensures Authenticate(lib, header, verify, users).error.Status() == 401
      <==> Authenticate(lib, header, verify, users) != Denied(ServerError)
  {
  }
}
