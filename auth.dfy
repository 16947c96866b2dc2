/**
 * The decision `onAuth` takes for one `auth` request: validate the payload,
 * look the application up, derive its room, and admit the socket either
 * anonymously or as an identified user, with the role raised to owner when
 * the user owns the application. The directory's answers are inputs; the
 * decision records which directory calls it made.
 */
module Auth {

  import opened Wrappers
  import opened Records
  import opened Decimal

  /** The JavaScript values an `auth` payload field can hold. */
  datatype JsValue = Undefined | Null | Bool(b: bool) | Number(n: int) | Str(s: string) | Object

  /**
   * The `auth` payload: anything that is not a plain object, or a plain object
   * whose `app_id`, `hashed_token` and `token_hash` fields (Undefined when
   * missing) the server reads.
   */
  datatype Payload =
    | NotPlainObject
    | PlainObject(appId: JsValue, hashedToken: JsValue, tokenHash: JsValue)

  /** An application record from the directory. */
  datatype App = App(id: int, owners: seq<string>)

  /** `API.findAppById`: an error, no such application, or the application. */
  datatype AppLookup = AppLookupFailed | NoApp | AppFound(app: App)

  /**
   * `API.findUserByTokenHash`: an error, an object carrying `error` (an
   * invalid token), or a user record.
   */
  datatype TokenLookup = TokenLookupFailed | TokenInvalid | UserFound(user: User)

  datatype DirectoryCall = FindAppById(appId: int) | FindUserByTokenHash(hash: string)

  /**
   * `Rejected`: a `client_error` is emitted to the socket; `Failed`: the
   * callback receives an error code; `Admitted`: a client for `room` is handed
   * to admission, with or without a user.
   */
  datatype Verdict =
    | Rejected(message: string)
    | Failed(code: string)
    | Admitted(room: string, user: Option<User>)

  datatype Decision = Decision(calls: seq<DirectoryCall>, verdict: Verdict)

  const NotAnObject := "must send data object with `auth` event"
  const NoAppId := "must send app_id integer with `auth` event"
  const NoCallback := "must provide callback to `auth` event"
  const UnknownApp := "no app found with the app_id you sent to `auth` event"
  const InternalError := "INTERNAL_ERROR"
  const OwnerRole := "owner"
  const RoomPrefix := "app:"

  /** JavaScript truthiness (NaN is not among the modelled numbers). */
  predicate Truthy(v: JsValue) {
    match v
    case Undefined => false
    case Null => false
    case Bool(b) => b
    case Number(n) => n != 0
    case Str(s) => s != ""
    case Object => true
  }

  /** JavaScript's `a || b`. */
  function Or(a: JsValue, b: JsValue): (v: JsValue) {
    if Truthy(a) then a else b
  }

  /** `data.hashed_token || data.token_hash` */
  function TokenHash(p: Payload): (v: JsValue)
    requires p.PlainObject?
  {
    Or(p.hashedToken, p.tokenHash)
  }

  /** `'app:' + app.id` */
  function RoomName(appId: int): (name: string) {
    RoomPrefix + IntToString(appId)
  }

  /** The user record with its role set to owner when the user owns the application. */
  function WithOwnerRole(user: User, app: App): (u: User) {
    if user.uname in app.owners then user.(role := OwnerRole) else user
  }

  /** The three checks made before any directory call. */
  predicate WellFormedRequest(p: Payload, hasCallback: bool) {
    p.PlainObject? && p.appId.Number? && hasCallback
  }

  /** The whole `onAuth` decision, given what the directory answers. */
  function Decide(p: Payload, hasCallback: bool, appLookup: AppLookup, tokenLookup: TokenLookup): (d: Decision) {
    if !p.PlainObject? then Decision([], Rejected(NotAnObject))
    else if !p.appId.Number? then Decision([], Rejected(NoAppId))
    else if !hasCallback then Decision([], Rejected(NoCallback))
    else
      var appCall := [FindAppById(p.appId.n)];
      match appLookup
      case AppLookupFailed => Decision(appCall, Failed(InternalError))
      case NoApp => Decision(appCall, Rejected(UnknownApp))
      case AppFound(app) =>
        var room := RoomName(app.id);
        var token := TokenHash(p);
        if !token.Str? then Decision(appCall, Admitted(room, None))
        else
          var calls := appCall + [FindUserByTokenHash(token.s)];
          match tokenLookup
          case TokenLookupFailed => Decision(calls, Failed(InternalError))
          case TokenInvalid => Decision(calls, Admitted(room, None))
          case UserFound(user) => Decision(calls, Admitted(room, Some(WithOwnerRole(user, app))))
  }

  /**
   * A payload that is not a plain object, lacks a numeric `app_id`, or comes
   * without a callback is answered with a `client_error` naming the first
   * failed check, and no directory call is made.
   */
  lemma MalformedRequestMakesNoLookup(p: Payload, hasCallback: bool, appLookup: AppLookup, tokenLookup: TokenLookup)
    requires !WellFormedRequest(p, hasCallback)
    ensures Decide(p, hasCallback, appLookup, tokenLookup).calls == []
    ensures !p.PlainObject? ==> Decide(p, hasCallback, appLookup, tokenLookup).verdict == Rejected(NotAnObject)
    ensures p.PlainObject? && !p.appId.Number? ==>
              Decide(p, hasCallback, appLookup, tokenLookup).verdict == Rejected(NoAppId)
    ensures p.PlainObject? && p.appId.Number? ==>
              Decide(p, hasCallback, appLookup, tokenLookup).verdict == Rejected(NoCallback)
  {
  }

  /**
   * A well-formed request always looks its application up first; a directory
   * error goes to the callback, a missing application to `client_error`, and
   * neither admits anyone.
   */
  lemma AppLookupComesFirst(p: Payload, hasCallback: bool, appLookup: AppLookup, tokenLookup: TokenLookup)
    requires WellFormedRequest(p, hasCallback)
    ensures |Decide(p, hasCallback, appLookup, tokenLookup).calls| > 0
    ensures Decide(p, hasCallback, appLookup, tokenLookup).calls[0] == FindAppById(p.appId.n)
    ensures appLookup.AppLookupFailed? ==>
              Decide(p, hasCallback, appLookup, tokenLookup) == Decision([FindAppById(p.appId.n)], Failed(InternalError))
    ensures appLookup.NoApp? ==>
              Decide(p, hasCallback, appLookup, tokenLookup) == Decision([FindAppById(p.appId.n)], Rejected(UnknownApp))
  {
  }

  /** Whoever is admitted is admitted to the room of the application the directory found. */
  lemma AdmittedRoomIsAppRoom(p: Payload, hasCallback: bool, appLookup: AppLookup, tokenLookup: TokenLookup)
    requires Decide(p, hasCallback, appLookup, tokenLookup).verdict.Admitted?
    ensures WellFormedRequest(p, hasCallback) && appLookup.AppFound?
    ensures Decide(p, hasCallback, appLookup, tokenLookup).verdict.room == RoomName(appLookup.app.id)
  {
  }

  /** The token is looked up exactly when the request is valid, the app exists and the token is a string. */
  lemma TokenLookupIffStringToken(p: Payload, hasCallback: bool, appLookup: AppLookup, tokenLookup: TokenLookup)
    ensures (exists h :: FindUserByTokenHash(h) in Decide(p, hasCallback, appLookup, tokenLookup).calls) <==>
              (WellFormedRequest(p, hasCallback) && appLookup.AppFound? && TokenHash(p).Str?)
  {
    var d := Decide(p, hasCallback, appLookup, tokenLookup);
    if WellFormedRequest(p, hasCallback) && appLookup.AppFound? && TokenHash(p).Str? {
      assert FindUserByTokenHash(TokenHash(p).s) in d.calls;
    }
  }

  /**
   * Once the application is found, the session is anonymous exactly when no
   * token string was sent or the directory called the token invalid; both
   * are admissions, not rejections.
   */
  lemma AnonymousIffNoTokenOrInvalid(p: Payload, hasCallback: bool, appLookup: AppLookup, tokenLookup: TokenLookup)
    requires WellFormedRequest(p, hasCallback) && appLookup.AppFound?
    ensures Decide(p, hasCallback, appLookup, tokenLookup).verdict == Admitted(RoomName(appLookup.app.id), None) <==>
              (!TokenHash(p).Str? || tokenLookup.TokenInvalid?)
  {
  }

  /**
   * An identified session carries the directory's user, whose role is
   * `owner` exactly when the application lists the user as an owner and is
   * otherwise the directory's role.
   */
  lemma IdentifiedUserRole(p: Payload, hasCallback: bool, appLookup: AppLookup, tokenLookup: TokenLookup, u: User)
    requires Decide(p, hasCallback, appLookup, tokenLookup).verdict.Admitted?
    requires Decide(p, hasCallback, appLookup, tokenLookup).verdict.user == Some(u)
    ensures appLookup.AppFound? && tokenLookup.UserFound?
    ensures u.uname == tokenLookup.user.uname
    ensures u.uname in appLookup.app.owners ==> u.role == OwnerRole
    ensures u.uname !in appLookup.app.owners ==> u.role == tokenLookup.user.role
  {
  }

  /** An empty `hashed_token` is falsy, so `token_hash` is used instead. */
  lemma EmptyHashedTokenFallsBack(appId: int, hash: string)
    ensures TokenHash(PlainObject(Number(appId), Str(""), Str(hash))) == Str(hash)
  {
  }

  /** A truthy non-string `hashed_token` hides a string `token_hash`: the session is anonymous. */
  lemma NonStringHashedTokenIsAnonymous(appId: int, hash: string, app: App, tokenLookup: TokenLookup)
    ensures Decide(PlainObject(Number(appId), Number(1), Str(hash)), true, AppFound(app), tokenLookup) ==
              Decision([FindAppById(appId)], Admitted(RoomName(app.id), None))
  {
  }

  /** Distinct applications never share a room. */
  lemma RoomNameInjective(i: int, j: int)
    requires RoomName(i) == RoomName(j)
    ensures i == j
  {
    assert IntToString(i) == RoomName(i)[|RoomPrefix|..];
    assert IntToString(j) == RoomName(j)[|RoomPrefix|..];
    IntToStringInjective(i, j);
  }
}
