/** The session-token state machine of `AccessTokenProvider`: the token pair
    persisted under the token key, the in-memory `AccessToken`/`RefreshToken`
    properties, and the two context services. Every operation is a pure
    transition from a session and the outcomes its collaborators supply to
    what the call returns or raises, the session afterwards, and the list of
    collaborator calls it made, in order. */
module TokenProvider {
  import opened Outcomes
  import opened Claims
  import opened Context

  /** The login service's response, and the only record ever persisted. */
  datatype TokenPair = TokenPair(accessToken: string, refreshToken: string)

  /** What one call of a token validator produces: a valid result with its
      identity and (nullable) decoded token, an invalid result with its
      (nullable) exception, or an exception raised by the call itself. */
  datatype Validation =
    | Valid(identity: ClaimsIdentity, securityToken: Option<SecurityToken>)
    | Invalid(exception: Option<Exn>)
    | Throws(fault: Exn)

  /** The collaborators, as fixed outcomes of their calls. Validators, the
      login service and the access-token generator are deterministic
      functions of their argument; the user directory is a map from id to
      user; `readFault`, `writeFault` and `deleteFault` are the exception, if
      any, that the protected local storage raises on a read, a write or a
      delete. */
  datatype Env = Env(
    login: ApplicationUser -> Attempt<TokenPair>,
    accessValidator: string -> Validation,
    refreshValidator: string -> Validation,
    users: map<string, ApplicationUser>,
    generate: ApplicationUser -> string,
    readFault: Option<Exn>,
    writeFault: Option<Exn>,
    deleteFault: Option<Exn>,
    claimTypes: ClaimTypes)

  /** The state of one provider instance and the storage it owns: the record
      under the token key (`None` when absent), the two in-memory token
      properties, and the context services. */
  datatype Session = Session(
    storage: Option<TokenPair>,
    accessToken: Option<string>,
    refreshToken: Option<string>,
    ctx: Contexts)

  /** A collaborator call, as recorded in an operation's call log. */
  datatype Call =
    | IssuePair(user: ApplicationUser)
    | WriteStorage(pair: TokenPair)
    | ReadStorage
    | DeleteStorage
    | ValidateAccess(token: string)
    | ValidateRefresh(token: string)
    | FindUser(userId: string)
    | Generate(user: ApplicationUser)

  /** What a claims principal wraps: `Anonymous` is the principal over an
      empty claims identity. */
  datatype Principal = Anonymous | Authenticated(identity: ClaimsIdentity)

  /** One transition: the returned value or raised exception, the session
      after the call, and the collaborator calls made, in order. */
  datatype Step<+T> = Step(outcome: Attempt<T>, after: Session, calls: seq<Call>)

  /** The call log holds no call of the refresh-token validator. */
  predicate NoValidateRefresh(calls: seq<Call>) {
    forall i :: 0 <= i < |calls| ==> !calls[i].ValidateRefresh?
  }

  /** The call log holds no user-directory lookup. */
  predicate NoFindUser(calls: seq<Call>) {
    forall i :: 0 <= i < |calls| ==> !calls[i].FindUser?
  }

  /** The record a read under the token key hands back as a successful,
      non-null value, if the read does not raise. */
  function VisiblePair(s: Session, env: Env): Option<TokenPair> {
    if env.readFault.None? then s.storage else None
  }

  /** A `CryptographicException` reaches the handler of `GetClaimsPrincipal`:
      the storage read raises one, or the access validator does, or the
      access token is invalid and the refresh validator raises one. */
  predicate CryptoFaultRaised(s: Session, env: Env) {
    || env.readFault == Some(Cryptographic)
    || (env.readFault.None? && s.storage.Some? &&
        var p := s.storage.value;
        || env.accessValidator(p.accessToken) == Throws(Cryptographic)
        || (env.accessValidator(p.accessToken).Invalid? &&
            env.refreshValidator(p.refreshToken) == Throws(Cryptographic)))
  }

  /** `Login`: the login service issues a pair for the user, the pair is
      written under the token key, the in-memory token properties take its
      two tokens, and both context services are bound from the user record.
      An exception from the login service or the storage write propagates
      and leaves the session as it was. */
  function Login(s: Session, env: Env, user: ApplicationUser): (r: Step<()>)
    ensures |r.calls| >= 1 && r.calls[0] == IssuePair(user)
    ensures r.outcome.Ok? <==> env.login(user).Ok? && env.writeFault.None?
    ensures r.outcome.Raised? ==> r.after == s
    // the exception raised is the login service's, or else the write's
    ensures r.outcome.Raised? ==>
      r.outcome.exn == (if env.login(user).Raised? then env.login(user).exn else env.writeFault.value)
    // the only calls are the issue and, once a pair is issued, its write
    ensures forall i :: 0 <= i < |r.calls| ==>
      r.calls[i].IssuePair? || (r.calls[i].WriteStorage? && env.login(user) == Ok(r.calls[i].pair))
    ensures r.calls == (if env.login(user).Raised? then [IssuePair(user)]
                        else [IssuePair(user), WriteStorage(env.login(user).value)])
    ensures r.outcome.Ok? ==>
      var pair := env.login(user).value;
      && r.after.storage == Some(pair)
      && r.after.accessToken == Some(pair.accessToken)
      && r.after.refreshToken == Some(pair.refreshToken)
      && BoundTo(r.after.ctx, Some(user.id), user.userName, user.tenantId, user.tenantName)
  {
    match env.login(user)
    case Raised(e) => Step(Raised(e), s, [IssuePair(user)])
    case Ok(pair) =>
      if env.writeFault.Some? then
        Step(Raised(env.writeFault.value), s, [IssuePair(user), WriteStorage(pair)])
      else
        var s1 := s.(storage := Some(pair));
        var s2 := s1.(accessToken := Some(pair.accessToken), refreshToken := Some(pair.refreshToken));
        Step(Ok(()), s2.(ctx := BindFromUser(user)), [IssuePair(user), WriteStorage(pair)])
  }

  /** `RemoveAuthDataFromStorage`: deletes the record under the token key and
      touches nothing else. An exception from the delete propagates, and the
      record is then taken to be still in place. */
  function RemoveAuthDataFromStorage(s: Session, env: Env): (r: Step<()>)
    ensures r.calls == [DeleteStorage]
    ensures r.outcome.Ok? <==> env.deleteFault.None?
    ensures r.outcome.Raised? ==> r.outcome.exn == env.deleteFault.value && r.after == s
    ensures r.outcome.Ok? ==> r.after.storage.None?
    ensures r.after.accessToken == s.accessToken && r.after.refreshToken == s.refreshToken
    ensures r.after.ctx == s.ctx
  {
    if env.deleteFault.Some? then Step(Raised(env.deleteFault.value), s, [DeleteStorage])
    else Step(Ok(()), s.(storage := None), [DeleteStorage])
  }

  /** The handler part of `GetClaimsPrincipal`: a `CryptographicException`
      deletes the stored pair (that delete is taken to succeed), any other
      exception is swallowed, and either way the anonymous principal is
      returned. */
  function HandleFault(s: Session, e: Exn, calls: seq<Call>): (r: Step<Principal>)
    ensures r.outcome == Ok(Anonymous)
    ensures r.after.accessToken == s.accessToken && r.after.refreshToken == s.refreshToken
    ensures r.after.ctx == s.ctx
    ensures r.after.storage == (if e == Cryptographic then None else s.storage)
    ensures r.calls == (if e == Cryptographic then calls + [DeleteStorage] else calls)
  {
    if e == Cryptographic then
      Step(Ok(Anonymous), s.(storage := None), calls + [DeleteStorage])
    else
      Step(Ok(Anonymous), s, calls)
  }

  /** `GetClaimsPrincipal`: read the pair; if there is one, overwrite the
      in-memory token properties with it, validate the access token and, only
      when that result is invalid, the refresh token; the first valid identity
      is bound into both contexts and returned. Every failure yields the
      anonymous principal; only a cryptographic fault removes the stored pair. */
  function GetClaimsPrincipal(s: Session, env: Env): (r: Step<Principal>)
    // never propagates a storage or validator exception
    ensures r.outcome.Ok?
    // the storage read comes first; validations follow in cascade order
    ensures |r.calls| >= 1 && r.calls[0] == ReadStorage
    ensures NoFindUser(r.calls)
    // only a cryptographic fault evicts, and then exactly the stored pair
    ensures (DeleteStorage in r.calls) <==> CryptoFaultRaised(s, env)
    ensures r.after.storage == (if CryptoFaultRaised(s, env) then None else s.storage)
    // nothing to validate: anonymous, no validator call, context untouched
    ensures VisiblePair(s, env).None? ==>
      && r.outcome.value == Anonymous
      && r.after.accessToken == s.accessToken && r.after.refreshToken == s.refreshToken
      && r.after.ctx == s.ctx
      && r.calls == (if env.readFault == Some(Cryptographic) then [ReadStorage, DeleteStorage] else [ReadStorage])
    // a visible pair: the token properties hold it on every path
    ensures VisiblePair(s, env).Some? ==>
      var p := VisiblePair(s, env).value;
      && r.after.accessToken == Some(p.accessToken)
      && r.after.refreshToken == Some(p.refreshToken)
      && |r.calls| >= 2 && r.calls[..2] == [ReadStorage, ValidateAccess(p.accessToken)]
    // with a visible pair: exactly one read, one call per validator reached,
    // and one delete exactly when a cryptographic fault was raised
    ensures VisiblePair(s, env).Some? ==>
      var p := VisiblePair(s, env).value;
      var base := if env.accessValidator(p.accessToken).Invalid?
                  then [ReadStorage, ValidateAccess(p.accessToken), ValidateRefresh(p.refreshToken)]
                  else [ReadStorage, ValidateAccess(p.accessToken)];
      r.calls == (if CryptoFaultRaised(s, env) then base + [DeleteStorage] else base)
    // a valid access token short-circuits the cascade
    ensures VisiblePair(s, env).Some? && env.accessValidator(VisiblePair(s, env).value.accessToken).Valid? ==>
      var id := env.accessValidator(VisiblePair(s, env).value.accessToken).identity;
      && r.outcome.value == Authenticated(id)
      && r.after.ctx == BindFromClaims(id, env.claimTypes)
      && NoValidateRefresh(r.calls)
    // the refresh token is tried only after an invalid access result
    ensures !NoValidateRefresh(r.calls) ==>
      VisiblePair(s, env).Some? && env.accessValidator(VisiblePair(s, env).value.accessToken).Invalid?
    ensures VisiblePair(s, env).Some? && env.accessValidator(VisiblePair(s, env).value.accessToken).Invalid? ==>
      var p := VisiblePair(s, env).value;
      && |r.calls| >= 3 && r.calls[..3] == [ReadStorage, ValidateAccess(p.accessToken), ValidateRefresh(p.refreshToken)]
      && (env.refreshValidator(p.refreshToken).Valid? ==>
            && r.outcome.value == Authenticated(env.refreshValidator(p.refreshToken).identity)
            && r.after.ctx == BindFromClaims(env.refreshValidator(p.refreshToken).identity, env.claimTypes))
      && (env.refreshValidator(p.refreshToken).Invalid? ==>
            r.outcome.value == Anonymous && r.after.storage == s.storage && r.after.ctx == s.ctx)
    // an authenticated result comes only from a valid access token, or from a
    // valid refresh token after an invalid access result
    ensures r.outcome.value.Authenticated? ==>
      && VisiblePair(s, env).Some?
      && var p := VisiblePair(s, env).value;
      || (env.accessValidator(p.accessToken).Valid? &&
          r.outcome.value.identity == env.accessValidator(p.accessToken).identity)
      || (env.accessValidator(p.accessToken).Invalid? && env.refreshValidator(p.refreshToken).Valid? &&
          r.outcome.value.identity == env.refreshValidator(p.refreshToken).identity)
    // an exception from either validator, of any class, yields anonymous
    ensures VisiblePair(s, env).Some? ==>
      var p := VisiblePair(s, env).value;
      (env.accessValidator(p.accessToken).Throws? ||
       (env.accessValidator(p.accessToken).Invalid? && env.refreshValidator(p.refreshToken).Throws?)) ==>
        r.outcome.value == Anonymous && r.after.ctx == s.ctx
    // contexts change only through a bind from the returned identity
    ensures r.outcome.value.Anonymous? ==> r.after.ctx == s.ctx
    ensures r.outcome.value.Authenticated? ==>
      r.after.ctx == BindFromClaims(r.outcome.value.identity, env.claimTypes) && TenantAgrees(r.after.ctx)
  {
    match env.readFault
    case Some(e) => HandleFault(s, e, [ReadStorage])
    case None =>
      if s.storage.None? then
        Step(Ok(Anonymous), s, [ReadStorage])
      else
        var p := s.storage.value;
        var s1 := s.(accessToken := Some(p.accessToken), refreshToken := Some(p.refreshToken));
        var c1 := [ReadStorage, ValidateAccess(p.accessToken)];
        match env.accessValidator(p.accessToken)
        case Throws(e) => HandleFault(s1, e, c1)
        case Valid(id, _) => Step(Ok(Authenticated(id)), s1.(ctx := BindFromClaims(id, env.claimTypes)), c1)
        case Invalid(_) =>
          var c2 := c1 + [ValidateRefresh(p.refreshToken)];
          match env.refreshValidator(p.refreshToken)
          case Throws(e) => HandleFault(s1, e, c2)
          case Valid(id, _) => Step(Ok(Authenticated(id)), s1.(ctx := BindFromClaims(id, env.claimTypes)), c2)
          case Invalid(_) => Step(Ok(Anonymous), s1, c2)
  }

  /** The user id a validation result names for `Refresh`: the value of the
      first `"id"` claim of its decoded token, or the exception the lookup
      raises (a null or non-JWT token, or no such claim). */
  function RefreshSubject(v: Validation): (r: Attempt<string>)
    requires v.Valid?
    ensures r.Ok? ==> v.securityToken.Some? && v.securityToken.value.JwtToken? &&
                      IsFirstValue(v.securityToken.value.claims, IdClaimType, Some(r.value))
    ensures r == Raised(NullReference) <==> !(v.securityToken.Some? && v.securityToken.value.JwtToken?)
    ensures r == Raised(NoMatchingElement) <==>
      v.securityToken.Some? && v.securityToken.value.JwtToken? &&
      IsFirstValue(v.securityToken.value.claims, IdClaimType, None)
    ensures r.Ok? || r == Raised(NullReference) || r == Raised(NoMatchingElement)
  {
    if v.securityToken.Some? && v.securityToken.value.JwtToken? then
      match FindFirstValue(v.securityToken.value.claims, IdClaimType)
      case Some(id) => Ok(id)
      case None =>
        assert forall o :: IsFirstValue(v.securityToken.value.claims, IdClaimType, o) ==> o == None by {
          forall o | IsFirstValue(v.securityToken.value.claims, IdClaimType, o)
            ensures o == None
          {
            FirstValueUnique(v.securityToken.value.claims, IdClaimType, o, None);
          }
        }
        Raised(NoMatchingElement)
    else Raised(NullReference)
  }

  /** `Refresh`: validate the given token (with the ACCESS-token validator),
      read the user id from its `"id"` claim, look the user up and return a
      freshly generated access token for them. Every failure raises; no path
      touches storage, the token properties or the contexts. */
  function Refresh(s: Session, env: Env, refreshToken: string): (r: Step<string>)
    ensures r.after == s
    ensures |r.calls| >= 1 && r.calls[0] == ValidateAccess(refreshToken)
    ensures NoValidateRefresh(r.calls) && !(DeleteStorage in r.calls)
    // an invalid token raises the validator's exception, before any lookup
    ensures !env.accessValidator(refreshToken).Valid? ==>
      && r.calls == [ValidateAccess(refreshToken)]
      && NoFindUser(r.calls)
      && r.outcome == Raised(
           match env.accessValidator(refreshToken)
           case Throws(e) => e
           case Invalid(e) => if e.Some? then e.value else NullReference
           case Valid(_, _) => NullReference)
    // a null or non-JWT decoded token, or one without an "id" claim, raises
    // the lookup's exception before any directory call
    ensures env.accessValidator(refreshToken).Valid? &&
            RefreshSubject(env.accessValidator(refreshToken)).Raised? ==>
      && r.outcome == RefreshSubject(env.accessValidator(refreshToken))
      && r.calls == [ValidateAccess(refreshToken)]
    // an id absent from the directory raises "user not found" for that id
    ensures env.accessValidator(refreshToken).Valid? &&
            RefreshSubject(env.accessValidator(refreshToken)).Ok? ==>
      var uid := RefreshSubject(env.accessValidator(refreshToken)).value;
      uid !in env.users ==>
        && r.outcome == Raised(UserNotFound(uid))
        && r.calls == [ValidateAccess(refreshToken), FindUser(uid)]
    // success: the generator's token for the user the "id" claim names
    ensures r.outcome.Ok? <==>
      && env.accessValidator(refreshToken).Valid?
      && RefreshSubject(env.accessValidator(refreshToken)).Ok?
      && RefreshSubject(env.accessValidator(refreshToken)).value in env.users
    ensures r.outcome.Ok? ==>
      var uid := RefreshSubject(env.accessValidator(refreshToken)).value;
      && r.outcome.value == env.generate(env.users[uid])
      && r.calls == [ValidateAccess(refreshToken), FindUser(uid), Generate(env.users[uid])]
  {
    var c0 := [ValidateAccess(refreshToken)];
    match env.accessValidator(refreshToken)
    case Throws(e) => Step(Raised(e), s, c0)
    case Invalid(e) => Step(Raised(if e.Some? then e.value else NullReference), s, c0)
    case Valid(id, tok) =>
      match RefreshSubject(env.accessValidator(refreshToken))
      case Raised(e) => Step(Raised(e), s, c0)
      case Ok(uid) =>
        if uid !in env.users then
          Step(Raised(UserNotFound(uid)), s, c0 + [FindUser(uid)])
        else
          var user := env.users[uid];
          Step(Ok(env.generate(user)), s, c0 + [FindUser(uid), Generate(user)])
  }
}
