# Session-token lifecycle of `AccessTokenProvider`, modelled in Dafny

This project models the session-token state machine of the Blazor server
application's `AccessTokenProvider`. It covers five pieces:

- persisting the access/refresh token pair issued at login under the token key of protected local storage;
- the in-memory `AccessToken` and `RefreshToken` properties;
- the validation cascade of `GetClaimsPrincipal`, which tries the access token first and then the refresh token;
- its three-way exception handling: a cryptographic fault evicts the stored pair, any other fault is swallowed, and an ordinary invalid result falls back to anonymous;
- the binding of the tenant provider and current-user service from a claims identity or a user record, and the `Refresh` operation that re-issues an access token.

Every operation is a pure function from a `Session` (stored pair, token
properties, the two contexts) and an `Env` (the collaborators' outcomes) to a
`Step`. A `Step` holds three things:

- the value returned or the exception raised (`Attempt`);
- the session afterwards;
- the ordered log of collaborator calls.

The call log is what lets the contracts say that a validator or the user
directory was never consulted.

Files and modules:

- `outcomes.dfy`, module `Outcomes`: nullable values, the exception classes, and call outcomes.
- `claims.dfy`, module `Claims`: claims, identities, decoded tokens, and first-match claim lookup.
- `context.dfy`, module `Context`: the user record, the two context services, and the two binders.
- `provider.dfy`, module `TokenProvider`: `Login`, `GetClaimsPrincipal`, `RemoveAuthDataFromStorage` and `Refresh`.
- `properties.dfy`, module `Properties`: relations between calls, and invariants over any sequence of requests.

Collaborators are parameters of the model:

- The login service, both validators and the access-token generator are deterministic functions.
- The user directory is a map from id to user.
- Storage faults are an optional exception on a read, a write or a delete.
- The claim-type names the claim extensions read are a `ClaimTypes` record.

Behaviour of the source that the model keeps as written:

- `Refresh` takes a parameter named `refreshToken`, but line 115 validates it with the access-token validator, not the refresh-token validator.
- Line 121 reads the user id from the claim type `"id"` of the decoded JWT.
- On an invalid result `Refresh` throws the validator's exception (line 118). When that exception is null, `throw null` raises a `NullReferenceException`.
- Two other lookups at line 121 fail. A decoded token that is not a JWT raises `NullReferenceException` (`jwt!`). A JWT without an `"id"` claim raises the no-matching-element exception of `First`.
- `GetClaimsPrincipal` overwrites `AccessToken`/`RefreshToken` with the stored pair before validating (lines 59-60). So after a successful read they hold the stored values on every failure path.
- On a cryptographic fault the handler deletes the pair and execution falls through to the final `return` (line 87). So the result is anonymous, as for every other failure.

## Model

| member | source | states |
|---|---|---|
| Claims.FindFirstValue | src/Infrastructure/Services/JWT/AccessTokenProvider.cs:121 | the result is null exactly when no claim has the requested type, and otherwise the value of the earliest claim of that type |
| Claims.FirstValueUnique | src/Infrastructure/Services/JWT/AccessTokenProvider.cs:121 | a first-match claim read has at most one possible result |
| Context.BindFromClaims | src/Infrastructure/Services/JWT/AccessTokenProvider.cs:90-100 | each of the six context fields is the first claim of its type in the one identity (null when absent), and the tenant provider and current-user service agree on tenant id and tenant name |
| Context.BindFromUser | src/Infrastructure/Services/JWT/AccessTokenProvider.cs:102-110 | both services hold the record's id, user name, tenant id and tenant name as a unit, so they agree on the tenant |
| Context.ClaimsOfUserBindLikeUser | src/Infrastructure/Services/JWT/AccessTokenProvider.cs:90-110 | an identity whose first claims carry a user's four attributes binds exactly the contexts the user record binds |
| TokenProvider.Login | src/Infrastructure/Services/JWT/AccessTokenProvider.cs:44-51 | on success storage holds exactly the issued pair, the token properties equal its fields, and all six context fields come from the user record. Otherwise the login service's exception, or failing that the write's, propagates, and the token properties and contexts are unchanged. The call log is exactly the issue, followed by the write of the issued pair when one was issued: no read or validation |
| TokenProvider.RemoveAuthDataFromStorage | src/Infrastructure/Services/JWT/AccessTokenProvider.cs:111 | one delete call. On success the stored pair is gone. A delete exception propagates with the session unchanged. The token properties and contexts are untouched either way |
| TokenProvider.HandleFault | src/Infrastructure/Services/JWT/AccessTokenProvider.cs:79-87 | every exception yields anonymous; only a cryptographic one deletes the stored pair; the token properties and contexts are untouched |
| TokenProvider.GetClaimsPrincipal | src/Infrastructure/Services/JWT/AccessTokenProvider.cs:52-88 | never raises. The call log is pinned exactly: one read, one call per validator reached, and one delete exactly when a cryptographic fault was raised. With no readable pair no validator runs, the result is anonymous, and the token properties and contexts are unchanged; a cryptographic read fault still deletes storage. A valid access token short-circuits the cascade. The refresh validator runs only after an invalid access result, and a valid refresh identity is then returned and bound. An authenticated result comes only from one of those two valid identities. An exception from either validator, of any class, gives anonymous with the contexts unchanged. Both invalid gives anonymous with storage and contexts unchanged. Storage is deleted if and only if a cryptographic fault was raised |
| TokenProvider.RefreshSubject | src/Infrastructure/Services/JWT/AccessTokenProvider.cs:120-121 | the user id is the first `"id"` claim of the decoded JWT; a null or non-JWT token raises a null-reference fault; a JWT without the claim raises no-matching-element |
| TokenProvider.Refresh | src/Infrastructure/Services/JWT/AccessTokenProvider.cs:113-129 | validates with the access validator, never the refresh one. An invalid or faulting validation raises the validator's exception with no directory lookup. A null or non-JWT decoded token, or a missing `"id"` claim, raises that lookup's exception with no directory lookup. An id missing from the directory raises user-not-found for that id. Otherwise the result is the generator's token for the user the `"id"` claim names. The session is unchanged on every path |
| Properties.GetClaimsPrincipalIdempotent | src/Infrastructure/Services/JWT/AccessTokenProvider.cs:52-88 | a second read with the same collaborators returns the same principal and leaves the same session as the first |
| Properties.LoginThenGetClaimsPrincipal | src/Infrastructure/Services/JWT/AccessTokenProvider.cs:44-66 | after a login, a read whose access identity carries the user's attributes returns that identity and leaves the session exactly as the login left it |
| Properties.RemoveThenGetClaimsPrincipal | src/Infrastructure/Services/JWT/AccessTokenProvider.cs:56-57 | after a removal that succeeds, a non-faulting read returns anonymous, makes only the read call and changes nothing |
| Properties.ApplyKeepsTenantAgreement | src/Infrastructure/Services/JWT/AccessTokenProvider.cs:90-110 | every public operation keeps the two context services in agreement on the tenant |
| Properties.RunKeepsTenantAgreement | src/Infrastructure/Services/JWT/AccessTokenProvider.cs:90-110 | any sequence of logins, reads, removals and refreshes keeps the two services in agreement on the tenant |
| Properties.ApplyStorageOrigin | src/Infrastructure/Services/JWT/AccessTokenProvider.cs:44-111 | one operation leaves storage as it was, empties it, or stores the pair its own login was issued |
| Properties.RunStorageOrigin | src/Infrastructure/Services/JWT/AccessTokenProvider.cs:44-111 | after any sequence of operations the stored record is the initial one, nothing, or a pair the login service issued during the sequence |

## Left out

- `PicklistService` (`src/Infrastructure/Services/Picklist/PicklistService.cs`) is not part of this model. It is a lock-guarded cache-aside over a caching library, database queries and an object mapper, with no logic of its own to state.
- The constructor's dependency-injection scope and `UserManager` resolution (lines 25-43) are wiring only.
- Async/await is not modelled. Every collaborator call is one synchronous step, and concurrent calls on one instance are not modelled.
- Protected-storage encryption and serialization are not modelled. A read either raises an exception or returns the record under the token key. An unsuccessful read and a stored null value are both modelled as "no record".
- JWT parsing and signature checking are not modelled. Validator results are supplied outcomes.
- The claim extensions (`GetTenantId`, `GetTenantName`, `GetUserId`, `GetUserName`) are foreign code. They are modelled as first-match claim reads over claim-type names supplied as parameters, and they are assumed never to raise.
- A valid validation result always carries a claims identity. A null identity on a valid result is not modelled.
- The user directory lookup and the access-token generator are modelled as non-raising. The generator is an uninterpreted function, so no freshness of issued tokens is claimed.
- An exception raised by the delete inside the cryptographic-fault handler is not modelled; that delete always succeeds.
- Login: a storage write that raises is modelled as leaving the stored record in place. The write may already have reached the browser, so what storage holds after a failed write is not known; the token properties and contexts are unchanged either way, because lines 48-50 do not run.
- RemoveAuthDataFromStorage: a delete that raises is modelled as leaving the stored record in place. What the browser storage holds after a failed delete is not known.
- BindFromClaims: claim types are compared by exact equality. `ClaimsIdentity.FindFirst` compares claim types ignoring case, and the claim extensions may use it, so a claim whose type differs from the expected name only in letter case is read by the source but not by the model. The `"id"` lookup of `Refresh` (line 121) is an ordinal comparison and is modelled exactly.
- The unused `_refreshTokenKey` field (line 13) holds no state the model needs.
