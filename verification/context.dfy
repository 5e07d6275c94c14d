/** The two ambient context services the token provider writes (the tenant
    provider and the current-user service) and the two ways of binding them:
    from a validated claims identity and from an application-user record. */
module Context {
  import opened Outcomes
  import opened Claims

  /** The application-user record of the user directory. The id is never
      null; the other three properties are nullable strings. */
  datatype ApplicationUser = ApplicationUser(
    id: string,
    userName: Option<string>,
    tenantId: Option<string>,
    tenantName: Option<string>)

  /** Fields of the tenant provider. */
  datatype TenantContext = TenantContext(tenantId: Option<string>, tenantName: Option<string>)

  /** Fields of the current-user service. */
  datatype CurrentUser = CurrentUser(
    userId: Option<string>,
    userName: Option<string>,
    tenantId: Option<string>,
    tenantName: Option<string>)

  /** Both context services, as the token provider sees them. */
  datatype Contexts = Contexts(tenant: TenantContext, user: CurrentUser)

  /** The tenant provider and the current-user service name the same tenant. */
  predicate TenantAgrees(c: Contexts) {
    c.tenant.tenantId == c.user.tenantId && c.tenant.tenantName == c.user.tenantName
  }

  /** All six context fields carry the given user id, user name, tenant id and
      tenant name: the two services are bound as a unit from one source. */
  predicate BoundTo(c: Contexts, userId: Option<string>, userName: Option<string>,
                    tenantId: Option<string>, tenantName: Option<string>) {
    && c.tenant == TenantContext(tenantId, tenantName)
    && c.user == CurrentUser(userId, userName, tenantId, tenantName)
  }

  /** The contexts after binding from a validated identity: every field is
      the first claim of its claim type in that one identity, or null when the
      identity has no such claim, so nothing of the previous contexts survives. */
  function BindFromClaims(identity: ClaimsIdentity, types: ClaimTypes): (r: Contexts)
    ensures TenantAgrees(r)
    ensures IsFirstValue(identity.claims, types.userId, r.user.userId)
    ensures IsFirstValue(identity.claims, types.userName, r.user.userName)
    ensures IsFirstValue(identity.claims, types.tenantId, r.tenant.tenantId)
    ensures IsFirstValue(identity.claims, types.tenantName, r.tenant.tenantName)
  {
    var tenantId := FindFirstValue(identity.claims, types.tenantId);
    var tenantName := FindFirstValue(identity.claims, types.tenantName);
    Contexts(
      TenantContext(tenantId, tenantName),
      CurrentUser(
        FindFirstValue(identity.claims, types.userId),
        FindFirstValue(identity.claims, types.userName),
        tenantId,
        tenantName))
  }

  /** The contexts after binding from a user record: the record's id, user
      name, tenant id and tenant name, in both services. */
  function BindFromUser(user: ApplicationUser): (r: Contexts)
    ensures TenantAgrees(r)
    ensures BoundTo(r, Some(user.id), user.userName, user.tenantId, user.tenantName)
  {
    Contexts(
      TenantContext(user.tenantId, user.tenantName),
      CurrentUser(Some(user.id), user.userName, user.tenantId, user.tenantName))
  }

  /** An identity that carries a user's four attributes, each as the first
      claim of its type, binds exactly the contexts that the user record binds. */
  lemma ClaimsOfUserBindLikeUser(identity: ClaimsIdentity, types: ClaimTypes, user: ApplicationUser)
    requires IsFirstValue(identity.claims, types.userId, Some(user.id))
    requires IsFirstValue(identity.claims, types.userName, user.userName)
    requires IsFirstValue(identity.claims, types.tenantId, user.tenantId)
    requires IsFirstValue(identity.claims, types.tenantName, user.tenantName)
    ensures BindFromClaims(identity, types) == BindFromUser(user)
  {
  }
}
