/** Properties that relate several calls of the token provider: repeated
    reads, a login followed by a read, a removal followed by a read, and
    invariants that hold across any sequence of the four public operations. */
module Properties {
  import opened Outcomes
  import opened Claims
  import opened Context
  import opened TokenProvider

  /** A public operation of the provider together with the collaborator
      outcomes it meets. */
  datatype Op = DoLogin(user: ApplicationUser) | DoGetClaimsPrincipal | DoRemove | DoRefresh(token: string)
  datatype Request = Request(op: Op, env: Env)

  /** The session after one request, whatever it returned or raised. */
  function Apply(s: Session, q: Request): Session {
    match q.op
    case DoLogin(u) => Login(s, q.env, u).after
    case DoGetClaimsPrincipal => GetClaimsPrincipal(s, q.env).after
    case DoRemove => RemoveAuthDataFromStorage(s, q.env).after
    case DoRefresh(t) => Refresh(s, q.env, t).after
  }

  /** The session after a sequence of requests served one at a time. */
  function Run(s: Session, qs: seq<Request>): Session
    decreases |qs|
  {
    if |qs| == 0 then s else Run(Apply(s, qs[0]), qs[1..])
  }

  /** Some login in `qs` was issued `pair` by the login service. */
  ghost predicate IssuedIn(qs: seq<Request>, pair: TokenPair) {
    exists i :: 0 <= i < |qs| && qs[i].op.DoLogin? && qs[i].env.login(qs[i].op.user) == Ok(pair)
  }

  /** Reading the principal twice in a row, with the same collaborators,
      returns the same principal and leaves the same session: the first read
      either binds what the second binds again, or evicts what the second
      then does not find. */
  lemma GetClaimsPrincipalIdempotent(s: Session, env: Env)
    ensures var r1 := GetClaimsPrincipal(s, env);
            var r2 := GetClaimsPrincipal(r1.after, env);
            r2.outcome == r1.outcome && r2.after == r1.after
  {
  }

  /** A login immediately followed by a read whose access token validates to
      an identity carrying the user's attributes binds the same contexts the
      login bound, and returns that identity. */
  lemma LoginThenGetClaimsPrincipal(s: Session, env: Env, user: ApplicationUser, identity: ClaimsIdentity)
    requires env.login(user).Ok? && env.writeFault.None? && env.readFault.None?
    requires env.accessValidator(env.login(user).value.accessToken).Valid?
    requires identity == env.accessValidator(env.login(user).value.accessToken).identity
    requires IsFirstValue(identity.claims, env.claimTypes.userId, Some(user.id))
    requires IsFirstValue(identity.claims, env.claimTypes.userName, user.userName)
    requires IsFirstValue(identity.claims, env.claimTypes.tenantId, user.tenantId)
    requires IsFirstValue(identity.claims, env.claimTypes.tenantName, user.tenantName)
    ensures var l := Login(s, env, user);
            var g := GetClaimsPrincipal(l.after, env);
            && g.outcome == Ok(Authenticated(identity))
            && g.after == l.after
  {
  }

  /** After a removal that succeeds, a read that does not fault finds
      nothing: it returns the anonymous principal, calls no validator and
      changes nothing. */
  lemma RemoveThenGetClaimsPrincipal(s: Session, env: Env)
    requires env.readFault.None?
    ensures var d := RemoveAuthDataFromStorage(s, env);
            var g := GetClaimsPrincipal(d.after, env);
            d.outcome.Ok? ==>
            && g.outcome == Ok(Anonymous)
            && g.after == d.after
            && g.calls == [ReadStorage]
  {
  }

  /** One request keeps the tenant provider and the current-user service in
      agreement. */
  lemma ApplyKeepsTenantAgreement(s: Session, q: Request)
    requires TenantAgrees(s.ctx)
    ensures TenantAgrees(Apply(s, q).ctx)
  {
  }

  /** Any sequence of requests keeps the two context services in agreement on
      the tenant. */
  lemma {:induction false} RunKeepsTenantAgreement(s: Session, qs: seq<Request>)
    requires TenantAgrees(s.ctx)
    ensures TenantAgrees(Run(s, qs).ctx)
    decreases |qs|
  {
    if |qs| > 0 {
      ApplyKeepsTenantAgreement(s, qs[0]);
      RunKeepsTenantAgreement(Apply(s, qs[0]), qs[1..]);
    }
  }

  /** One request leaves storage as it was, empties it, or stores the pair
      its own login was issued. */
  lemma ApplyStorageOrigin(s: Session, q: Request)
    ensures var t := Apply(s, q).storage;
            t == s.storage || t.None? || (t.Some? && IssuedIn([q], t.value))
  {
    var t := Apply(s, q).storage;
    if t != s.storage && t.Some? {
      assert [q][0] == q;
    }
  }

  /** After any sequence of requests the stored record is the one stored
      before, nothing, or a pair the login service issued to one of the
      logins in the sequence: no other operation ever writes storage. */
  lemma {:induction false} RunStorageOrigin(s: Session, qs: seq<Request>)
    ensures var t := Run(s, qs).storage;
            t == s.storage || t.None? || (t.Some? && IssuedIn(qs, t.value))
    decreases |qs|
  {
    if |qs| > 0 {
      var s1 := Apply(s, qs[0]);
      ApplyStorageOrigin(s, qs[0]);
      RunStorageOrigin(s1, qs[1..]);
      var t := Run(s, qs).storage;
      assert t == Run(s1, qs[1..]).storage;
      if t.Some? && t != s.storage {
        if IssuedIn(qs[1..], t.value) {
          var i :| 0 <= i < |qs[1..]| && qs[1..][i].op.DoLogin? &&
                   qs[1..][i].env.login(qs[1..][i].op.user) == Ok(t.value);
          assert qs[i + 1] == qs[1..][i];
        } else {
          assert t == s1.storage;
          assert [qs[0]][0] == qs[0];
        }
      }
    }
  }
}
